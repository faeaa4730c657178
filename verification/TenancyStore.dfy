/**
 * The store itself: methods that edit the maps one by one, each proved to take exactly the step of
 * the state machine.
 */
module TenancyStore {
  import opened Common
  import opened TenancyModel
  import opened TenancyInvariants

  lemma IndexedRow(s: State, key: (string, string))
    requires Inv(s) && key in s.activeMem
    ensures s.activeMem[key] in s.mems && s.mems[s.activeMem[key]].status == Active && s.mems[s.activeMem[key]].Key() == key
  {
  }

  lemma RowId(s: State, id: string)
    requires Inv(s) && id in s.mems
    ensures s.mems[id].id == id
  {
  }

  lemma RetireNone(s: State, stamps: string -> int)
    ensures RetireAll(s, {}, stamps) == s
  {
  }

  lemma RetireOneMore(s: State, ids: set<string>, id: string, stamps: string -> int)
    requires ids <= s.mems.Keys && id in s.mems && id !in ids
    ensures var s1 := RetireAll(s, ids, stamps);
      && s1.mems[id] == s.mems[id]
      && RetireAll(s, ids + {id}, stamps)
         == s1.(mems := s1.mems[id := s.mems[id].(status := Revoked, updatedAt := stamps(id))],
                activeMem := s1.activeMem - {s.mems[id].Key()}, tuples := s1.tuples - {TupleKey(s.mems[id].RoleTuple())})
  {
    assert (set x | x in ids + {id} :: s.mems[x].Key()) == (set x | x in ids :: s.mems[x].Key()) + {s.mems[id].Key()};
    assert (set x | x in ids + {id} :: TupleKey(s.mems[x].RoleTuple()))
        == (set x | x in ids :: TupleKey(s.mems[x].RoleTuple())) + {TupleKey(s.mems[id].RoleTuple())};
    var s1, s2 := RetireAll(s, ids, stamps), RetireAll(s, ids + {id}, stamps);
    assert s2.mems == s1.mems[id := s.mems[id].(status := Revoked, updatedAt := stamps(id))];
    assert s2.activeMem == s1.activeMem - {s.mems[id].Key()};
    assert s2.tuples == s1.tuples - {TupleKey(s.mems[id].RoleTuple())};
  }

  class InMemoryTenancyStore {
    var orgs: map<string, Organization>
    var memberships: map<string, Membership>
    var invitations: map<string, Invitation>
    var tuples: map<string, Tuple>
    var orgBySlug: map<string, string>
    var activeMemByOrgUsr: map<(string, string), string>

    ghost function Value(): State
      reads this
    {
      State(orgs, memberships, invitations, tuples, orgBySlug, activeMemByOrgUsr)
    }

    ghost predicate Valid()
      reads this
    {
      Inv(Value())
    }

    constructor ()
      ensures Valid() && Value() == EMPTY
    {
      orgs, memberships, invitations, tuples, orgBySlug, activeMemByOrgUsr := map[], map[], map[], map[], map[], map[];
      new;
      EmptyInv();
    }

    // -------------------------------------------------------------- organizations

    method CreateOrg(creator: string, name: Option<string>, slug: Option<string>, orgId: string, memId: string, now: int)
      returns (r: Result<(Organization, Membership), Error>)
      requires Valid() && Fresh(Value(), Op.CreateOrg(creator, name, slug, orgId, memId, now))
      modifies this
      ensures Valid()
      ensures var step := Step(old(Value()), Op.CreateOrg(creator, name, slug, orgId, memId, now));
        && Value() == step.next
        && (if step.error.Some? then r == Err(step.error.value)
            else orgId in orgs && memId in memberships && r == Ok((orgs[orgId], memberships[memId])))
    {
      hide Inv, TupleKey;
      StepKeepsInv(Value(), Op.CreateOrg(creator, name, slug, orgId, memId, now));
      if slug.Some? {
        if !ValidSlug(slug.value) {
          return Err(Precondition("invalid_slug"));
        }
        if slug.value in orgBySlug {
          return Err(OrgSlugConflict);
        }
      }
      var org := Organization(orgId, Active, now, now, name, slug);
      orgs := orgs[orgId := org];
      if slug.Some? {
        orgBySlug := orgBySlug[slug.value := orgId];
      }
      var mem := Membership(memId, creator, orgId, OWNER, Active, None, None, None, now, now);
      memberships := memberships[memId := mem];
      activeMemByOrgUsr := activeMemByOrgUsr[(orgId, creator) := memId];
      tuples := Write(tuples, Tuple("usr", creator, "owner", "org", orgId));
      return Ok((org, mem));
    }

    method UpdateOrg(orgId: string, input: UpdateOrgInput, now: int) returns (r: Result<Organization, Error>)
      requires Valid()
      modifies this
      ensures Valid()
      ensures var step := Step(old(Value()), Op.UpdateOrg(orgId, input, now));
        && Value() == step.next
        && (if step.error.Some? then r == Err(step.error.value) else orgId in orgs && r == Ok(orgs[orgId]))
    {
      hide Inv, TupleKey, ValidSlug;
      StepKeepsInv(Value(), Op.UpdateOrg(orgId, input, now));
      if orgId !in orgs {
        return Err(NotFound);
      }
      var o := orgs[orgId];
      if o.status == Revoked {
        return Err(AlreadyTerminal);
      }
      ghost var slugBefore := o.slug;
      if input.clearName {
        o := o.(name := None);
      } else if input.name.Some? {
        o := o.(name := input.name);
      }
      if input.clearSlug {
        if o.slug.Some? {
          orgBySlug := orgBySlug - {o.slug.value};
        }
        o := o.(slug := None);
      } else if input.slug.Some? {
        var newSlug := input.slug.value;
        if !ValidSlug(newSlug) {
          return Err(Precondition("invalid_slug"));
        }
        if newSlug in orgBySlug && orgBySlug[newSlug] != orgId {
          return Err(OrgSlugConflict);
        }
        if o.slug.Some? {
          orgBySlug := orgBySlug - {o.slug.value};
        }
        o := o.(slug := input.slug);
        orgBySlug := orgBySlug[newSlug := orgId];
      }
      o := o.(updatedAt := now);
      orgs := orgs[orgId := o];
      return Ok(o);
    }

    /** SuspendOrg, ReinstateOrg and RevokeOrg. */
    method TransitionOrg(orgId: string, target: Status, now: int, stamps: string -> int) returns (r: Result<Organization, Error>)
      requires Valid()
      modifies this
      ensures Valid()
      ensures var step := Step(old(Value()), Op.TransitionOrg(orgId, target, now, stamps));
        && Value() == step.next
        && (if step.error.Some? then r == Err(step.error.value) else orgId in orgs && r == Ok(orgs[orgId]))
    {
      hide Inv, RetireAll, ActiveIn, TupleKey;
      StepKeepsInv(Value(), Op.TransitionOrg(orgId, target, now, stamps));
      if orgId !in orgs {
        return Err(NotFound);
      }
      var o := orgs[orgId];
      if o.status == Revoked {
        return Err(AlreadyTerminal);
      }
      if target == Active && o.status != Suspended {
        return Err(Precondition("invalid_transition"));
      }
      o := o.(status := target, updatedAt := now);
      orgs := orgs[orgId := o];
      if target == Revoked {
        CascadeOrg(orgId, stamps);
        if o.slug.Some? {
          orgBySlug := orgBySlug - {o.slug.value};
        }
      }
      return Ok(o);
    }

    /** The cascade of a revocation: every active membership of the organization, in map order. */
    method CascadeOrg(orgId: string, stamps: string -> int)
      modifies this`memberships, this`activeMemByOrgUsr, this`tuples
      ensures Value() == RetireAll(old(Value()), ActiveIn(old(memberships), orgId), stamps)
    {
      hide RetireAll, TupleKey;
      ghost var before, gone, held := Value(), {}, ActiveIn(memberships, orgId);
      RetireNone(before, stamps);
      var pending := memberships.Keys;
      while pending != {}
        invariant pending <= before.mems.Keys && gone !! pending && gone == held - pending && gone <= before.mems.Keys
        invariant Value() == RetireAll(before, gone, stamps)
        invariant forall id :: id in pending ==> id in memberships && memberships[id] == before.mems[id]
        decreases pending
      {
        var mid: string :| mid in pending;
        VisitOne(held, pending, gone, mid);
        pending := pending - {mid};
        var m := memberships[mid];
        assert (m.orgId == orgId && m.status == Active) == (mid in held);
        if m.orgId == orgId && m.status == Active {
          RetireOneMore(before, gone, mid, stamps);
          RetireInCascade(mid, m, orgId, stamps(mid));
          gone := gone + {mid};
        }
      }
      assert gone == held;
    }

    /** One turn of that loop. */
    method RetireInCascade(mid: string, m: Membership, orgId: string, at: int)
      requires mid in memberships && m == memberships[mid] && m.orgId == orgId
      modifies this`memberships, this`activeMemByOrgUsr, this`tuples
      ensures Value() == old(Value()).(
        mems := old(memberships)[mid := m.(status := Revoked, updatedAt := at)],
        activeMem := old(activeMemByOrgUsr) - {m.Key()}, tuples := old(tuples) - {TupleKey(m.RoleTuple())})
    {
      hide TupleKey;
      activeMemByOrgUsr := activeMemByOrgUsr - {(orgId, m.usrId)};
      tuples := tuples - {TupleKey(Tuple("usr", m.usrId, m.role, "org", orgId))};
      memberships := memberships[mid := m.(status := Revoked, updatedAt := at)];
    }

    // -------------------------------------------------------------- memberships

    method CountActiveOwners(orgId: string) returns (n: nat)
      ensures n == |Owners(memberships, orgId)|
    {
      n := 0;
      var pending := memberships.Keys;
      ghost var counted, held := {}, Owners(memberships, orgId);
      while pending != {}
        invariant pending <= memberships.Keys && counted == held - pending && n == |counted|
        decreases pending
      {
        var id: string :| id in pending;
        VisitOne(held, pending, counted, id);
        var m := memberships[id];
        if m.orgId == orgId && m.status == Active && m.role == OWNER {
          n := n + 1;
          counted := counted + {id};
        }
        pending := pending - {id};
      }
      assert counted == held;
    }

    method AddMember(orgId: string, usrId: string, role: Role, invitedBy: Option<string>, memId: string, now: int)
      returns (r: Result<Membership, Error>)
      requires Valid() && memId !in memberships
      modifies this
      ensures Valid()
      ensures var step := Step(old(Value()), Op.AddMember(orgId, usrId, role, invitedBy, memId, now));
        && Value() == step.next
        && (if step.error.Some? then r == Err(step.error.value) else memId in memberships && r == Ok(memberships[memId]))
    {
      hide Inv, TupleKey;
      StepKeepsInv(Value(), Op.AddMember(orgId, usrId, role, invitedBy, memId, now));
      if orgId !in orgs {
        return Err(NotFound);
      }
      if (orgId, usrId) in activeMemByOrgUsr {
        return Err(DuplicateMembership);
      }
      var mem := Membership(memId, usrId, orgId, role, Active, None, invitedBy, None, now, now);
      memberships := memberships[memId := mem];
      activeMemByOrgUsr := activeMemByOrgUsr[(orgId, usrId) := memId];
      tuples := Write(tuples, Tuple("usr", usrId, role, "org", orgId));
      return Ok(mem);
    }

    /** Revoke-and-re-add, shared by ChangeRole, SelfLeave and TransferOwnership. */
    method ChangeRoleAtomicLocked(memId: string, newRole: Role, newId: string, now: int)
      requires memId in memberships && memberships[memId].id == memId
      modifies this`memberships, this`activeMemByOrgUsr, this`tuples
      ensures Value() == Replace(old(Value()), memId, newRole, newId, now)
    {
      var before := memberships[memId];
      var gone := before.(status := Revoked, updatedAt := now);
      memberships := memberships[memId := gone];
      activeMemByOrgUsr := activeMemByOrgUsr - {(gone.orgId, gone.usrId)};
      tuples := tuples - {TupleKey(Tuple("usr", gone.usrId, gone.role, "org", gone.orgId))};
      var nm := Membership(newId, gone.usrId, gone.orgId, newRole, Active, Some(memId), gone.invitedBy, None, now, now);
      memberships := memberships[newId := nm];
      activeMemByOrgUsr := activeMemByOrgUsr[(nm.orgId, nm.usrId) := newId];
      tuples := Write(tuples, Tuple("usr", nm.usrId, newRole, "org", nm.orgId));
    }

    method ChangeRole(memId: string, newRole: Role, newId: string, now: int) returns (r: Result<Membership, Error>)
      requires Valid() && newId !in memberships
      modifies this
      ensures Valid()
      ensures var step := Step(old(Value()), Op.ChangeRole(memId, newRole, newId, now));
        && Value() == step.next
        && (if step.error.Some? then r == Err(step.error.value)
            else if old(memberships)[memId].role == newRole then r == Ok(old(memberships)[memId])
            else newId in memberships && r == Ok(memberships[newId]))
    {
      hide Inv, Owners, TupleKey;
      StepKeepsInv(Value(), Op.ChangeRole(memId, newRole, newId, now));
      if memId !in memberships {
        return Err(NotFound);
      }
      var m := memberships[memId];
      if m.status != Active {
        return Err(Precondition("mem_not_active"));
      }
      if m.role == newRole {
        return Ok(m);
      }
      if m.role == OWNER && newRole != OWNER {
        var owners := CountActiveOwners(m.orgId);
        if owners == 1 {
          return Err(SoleOwner);
        }
      }
      RowId(Value(), memId);
      ChangeRoleAtomicLocked(memId, newRole, newId, now);
      return Ok(memberships[newId]);
    }

    method SuspendMembership(memId: string, now: int) returns (r: Result<Membership, Error>)
      requires Valid()
      modifies this
      ensures Valid()
      ensures var step := Step(old(Value()), Op.SuspendMembership(memId, now));
        && Value() == step.next
        && (if step.error.Some? then r == Err(step.error.value) else memId in memberships && r == Ok(memberships[memId]))
    {
      hide Inv, Owners, TupleKey;
      StepKeepsInv(Value(), Op.SuspendMembership(memId, now));
      if memId !in memberships {
        return Err(NotFound);
      }
      var m := memberships[memId];
      if m.status == Revoked {
        return Err(AlreadyTerminal);
      }
      if m.status == Active && m.role == OWNER {
        var owners := CountActiveOwners(m.orgId);
        if owners == 1 {
          return Err(SoleOwner);
        }
      }
      activeMemByOrgUsr := activeMemByOrgUsr - {(m.orgId, m.usrId)};
      tuples := tuples - {TupleKey(Tuple("usr", m.usrId, m.role, "org", m.orgId))};
      m := m.(status := Suspended, updatedAt := now);
      memberships := memberships[memId := m];
      return Ok(m);
    }

    method ReinstateMembership(memId: string, now: int) returns (r: Result<Membership, Error>)
      requires Valid()
      modifies this
      ensures Valid()
      ensures var step := Step(old(Value()), Op.ReinstateMembership(memId, now));
        && Value() == step.next
        && (if step.error.Some? then r == Err(step.error.value) else memId in memberships && r == Ok(memberships[memId]))
    {
      hide Inv, TupleKey;
      StepKeepsInv(Value(), Op.ReinstateMembership(memId, now));
      if memId !in memberships {
        return Err(NotFound);
      }
      var m := memberships[memId];
      if m.status == Revoked {
        return Err(AlreadyTerminal);
      }
      if m.status != Suspended {
        return Err(Precondition("invalid_transition"));
      }
      if (m.orgId, m.usrId) in activeMemByOrgUsr {
        return Err(DuplicateMembership);
      }
      activeMemByOrgUsr := activeMemByOrgUsr[(m.orgId, m.usrId) := memId];
      tuples := Write(tuples, Tuple("usr", m.usrId, m.role, "org", m.orgId));
      m := m.(status := Active, updatedAt := now);
      memberships := memberships[memId := m];
      return Ok(m);
    }

    /** How SelfLeave and AdminRemove end: index entry and tuple dropped, the row revoked. */
    method RetireLocked(memId: string, m: Membership, removedBy: string, now: int)
      requires memId in memberships && m == memberships[memId]
      modifies this`memberships, this`activeMemByOrgUsr, this`tuples
      ensures Value() == Retire(old(Value()), memId, Some(removedBy), now)
    {
      hide TupleKey;
      activeMemByOrgUsr := activeMemByOrgUsr - {(m.orgId, m.usrId)};
      tuples := tuples - {TupleKey(Tuple("usr", m.usrId, m.role, "org", m.orgId))};
      memberships := memberships[memId := m.(status := Revoked, removedBy := Some(removedBy), updatedAt := now)];
    }

    method SelfLeave(memId: string, transferTo: Option<string>, newId: string, promotedAt: int, now: int)
      returns (r: Result<Membership, Error>)
      requires Valid() && newId !in memberships
      modifies this
      ensures Valid()
      ensures var step := Step(old(Value()), Op.SelfLeave(memId, transferTo, newId, promotedAt, now));
        && Value() == step.next
        && (if step.error.Some? then r == Err(step.error.value) else memId in memberships && r == Ok(memberships[memId]))
    {
      hide Inv, Owners, Replace, TupleKey, Write;
      StepKeepsInv(Value(), Op.SelfLeave(memId, transferTo, newId, promotedAt, now));
      if memId !in memberships {
        return Err(NotFound);
      }
      var m := memberships[memId];
      if m.status != Active {
        return Err(Precondition("mem_not_active"));
      }
      var owners := CountActiveOwners(m.orgId);
      if m.role == OWNER && owners == 1 {
        if transferTo.None? {
          return Err(SoleOwner);
        }
        if (m.orgId, transferTo.value) !in activeMemByOrgUsr {
          return Err(NotFound);
        }
        var ttMemId := activeMemByOrgUsr[(m.orgId, transferTo.value)];
        IndexedRow(Value(), (m.orgId, transferTo.value));
        RowId(Value(), ttMemId);
        if memberships[ttMemId].role == OWNER {
          return Err(Precondition("already_owner"));
        }
        UntouchedByReplace(Value(), ttMemId, OWNER, newId, promotedAt, memId);
        ChangeRoleAtomicLocked(ttMemId, OWNER, newId, promotedAt);
      }
      RetireLocked(memId, m, m.usrId, now);
      return Ok(memberships[memId]);
    }

    method AdminRemove(memId: string, adminUsrId: string, now: int) returns (r: Result<Membership, Error>)
      requires Valid()
      modifies this
      ensures Valid()
      ensures var step := Step(old(Value()), Op.AdminRemove(memId, adminUsrId, now));
        && Value() == step.next
        && (if step.error.Some? then r == Err(step.error.value) else memId in memberships && r == Ok(memberships[memId]))
    {
      hide Inv, Owners, TupleKey;
      StepKeepsInv(Value(), Op.AdminRemove(memId, adminUsrId, now));
      if memId !in memberships {
        return Err(NotFound);
      }
      var target := memberships[memId];
      if target.status != Active {
        return Err(Precondition("mem_not_active"));
      }
      if (target.orgId, adminUsrId) !in activeMemByOrgUsr {
        return Err(Forbidden);
      }
      IndexedRow(Value(), (target.orgId, adminUsrId));
      var admin := memberships[activeMemByOrgUsr[(target.orgId, adminUsrId)]];
      if AdminRank(admin.role) < 3 {
        return Err(Forbidden);
      }
      if AdminRank(admin.role) < AdminRank(target.role) {
        return Err(RoleHierarchy);
      }
      if target.role == OWNER {
        var owners := CountActiveOwners(target.orgId);
        if owners == 1 {
          return Err(SoleOwner);
        }
      }
      RetireLocked(memId, target, adminUsrId, now);
      return Ok(memberships[memId]);
    }

    /** Both rows are read back through the index; a user transferring to another row of their own
        gets the demoted row twice. */
    method TransferOwnership(orgId: string, fromId: string, toId: string, newToId: string, newFromId: string, promotedAt: int, demotedAt: int)
      returns (r: Result<(Membership, Membership), Error>)
      requires Valid() && newToId !in memberships && newFromId !in memberships && newToId != newFromId
      modifies this
      ensures Valid()
      ensures Value() == Step(old(Value()), Op.TransferOwnership(orgId, fromId, toId, newToId, newFromId, promotedAt, demotedAt)).next
      ensures var error := Step(old(Value()), Op.TransferOwnership(orgId, fromId, toId, newToId, newFromId, promotedAt, demotedAt)).error;
        && (error.Some? ==> r == Err(error.value))
        && (error.None? ==>
              && newFromId in memberships && newToId in memberships
              && r.Ok? && r.value.0 == memberships[newFromId]
              && r.value.1 == memberships[if old(memberships)[fromId].usrId == old(memberships)[toId].usrId then newFromId else newToId])
    {
      hide Inv, Replace, TupleKey;
      StepKeepsInv(Value(), Op.TransferOwnership(orgId, fromId, toId, newToId, newFromId, promotedAt, demotedAt));
      if fromId == toId {
        return Err(Precondition("self_transfer"));
      }
      if fromId !in memberships || memberships[fromId].orgId != orgId || memberships[fromId].role != OWNER || memberships[fromId].status != Active {
        return Err(Precondition("not_active_owner"));
      }
      var from := memberships[fromId];
      if toId !in memberships || memberships[toId].orgId != orgId || memberships[toId].status != Active {
        return Err(Precondition("not_active_member"));
      }
      var to := memberships[toId];
      ghost var before := Value();
      RowId(before, toId);
      RowId(before, fromId);
      UntouchedByReplace(before, toId, OWNER, newToId, promotedAt, fromId);
      ChangeRoleAtomicLocked(toId, OWNER, newToId, promotedAt);
      ghost var middle := Value();
      ReplaceIndex(before, toId, OWNER, newToId, promotedAt);
      UntouchedByReplace(middle, fromId, MEMBER, newFromId, demotedAt, newToId);
      ReplaceIndex(middle, fromId, MEMBER, newFromId, demotedAt);
      ChangeRoleAtomicLocked(fromId, MEMBER, newFromId, demotedAt);
      var newFrom := activeMemByOrgUsr[(orgId, from.usrId)];
      var newTo := activeMemByOrgUsr[(orgId, to.usrId)];
      return Ok((memberships[newFrom], memberships[newTo]));
    }

    // -------------------------------------------------------------- invitations

    method CreateInvitation(orgId: string, identifier: string, role: Role, invitedBy: string, expiresAt: int, preTuples: seq<PreTuple>, invId: string, now: int)
      returns (r: Result<Invitation, Error>)
      requires Valid() && invId !in invitations
      modifies this
      ensures Valid()
      ensures var step := Step(old(Value()), Op.CreateInvitation(orgId, identifier, role, invitedBy, expiresAt, preTuples, invId, now));
        && Value() == step.next
        && (if step.error.Some? then r == Err(step.error.value) else invId in invitations && r == Ok(invitations[invId]))
    {
      hide Inv, TupleKey;
      StepKeepsInv(Value(), Op.CreateInvitation(orgId, identifier, role, invitedBy, expiresAt, preTuples, invId, now));
      if orgId !in orgs {
        return Err(NotFound);
      }
      var inv := Invitation(invId, orgId, identifier, role, Pending, preTuples, invitedBy, None, now, expiresAt, None, None);
      invitations := invitations[invId := inv];
      return Ok(inv);
    }

    method GetInvitation(invId: string, now: int, terminalAt: int) returns (r: Result<Invitation, Error>)
      requires Valid()
      modifies this
      ensures Valid()
      ensures var step := Step(old(Value()), Op.GetInvitation(invId, now, terminalAt));
        && Value() == step.next
        && (if step.error.Some? then r == Err(step.error.value) else invId in invitations && r == Ok(invitations[invId]))
    {
      hide Inv, TupleKey;
      StepKeepsInv(Value(), Op.GetInvitation(invId, now, terminalAt));
      if invId !in invitations {
        return Err(NotFound);
      }
      var inv := invitations[invId];
      if inv.status == Pending && !(now < inv.expiresAt) {
        inv := inv.(status := Expired, terminalAt := Some(terminalAt));
        invitations := invitations[invId := inv];
      }
      return Ok(inv);
    }

    method AcceptInvitation(invId: string, asUsrId: Option<string>, acceptingIdentifier: Option<string>, mintedUsrId: string,
                            memId: string, checkedAt: int, now: int)
      returns (r: Result<(Invitation, Membership, seq<Tuple>), Error>)
      requires Valid() && memId !in memberships
      modifies this
      ensures Valid()
      ensures Value() == StepAccept(old(Value()), Op.AcceptInvitation(invId, asUsrId, acceptingIdentifier, mintedUsrId, memId, checkedAt, now)).next
      ensures var error := StepAccept(old(Value()), Op.AcceptInvitation(invId, asUsrId, acceptingIdentifier, mintedUsrId, memId, checkedAt, now)).error;
        && (error.Some? ==> r == Err(error.value))
        && (error.None? ==>
              && invId in invitations && memId in memberships && r.Ok?
              && r.value.0 == invitations[invId] && r.value.1 == memberships[memId]
              && r.value.2 == [memberships[memId].RoleTuple()] + Materialized(old(invitations)[invId], memberships[memId].usrId))
    {
      hide Inv, Materialized, WriteAll, TupleKey;
      AcceptKeepsInv(Value(), Op.AcceptInvitation(invId, asUsrId, acceptingIdentifier, mintedUsrId, memId, checkedAt, now));
      if invId !in invitations {
        return Err(NotFound);
      }
      var inv := invitations[invId];
      if inv.status != Pending {
        return Err(InvitationNotPending);
      }
      if !(checkedAt < inv.expiresAt) {
        inv := inv.(status := Expired, terminalAt := Some(now));
        invitations := invitations[invId := inv];
        return Err(InvitationExpired);
      }
      if asUsrId.Some? {
        if acceptingIdentifier.None? {
          return Err(IdentifierBindingRequired);
        }
        if acceptingIdentifier.value != inv.identifier {
          return Err(IdentifierMismatch);
        }
      }
      var usr := if asUsrId.Some? then asUsrId.value else mintedUsrId;
      if (inv.orgId, usr) in activeMemByOrgUsr {
        return Err(DuplicateMembership);
      }
      var mem := Membership(memId, usr, inv.orgId, inv.role, Active, None, Some(inv.invitedBy), None, now, now);
      memberships := memberships[memId := mem];
      activeMemByOrgUsr := activeMemByOrgUsr[(inv.orgId, usr) := memId];
      var roleTuple := Tuple("usr", usr, inv.role, "org", inv.orgId);
      tuples := Write(tuples, roleTuple);
      var materialized := MaterializePreTuples(inv, usr, [roleTuple]);
      inv := inv.(status := Accepted, terminalAt := Some(now), invitedUserId := Some(usr));
      invitations := invitations[invId := inv];
      return Ok((inv, mem, materialized));
    }

    /** The loop over an accepted invitation's pre-tuples. */
    method MaterializePreTuples(inv: Invitation, usr: string, first: seq<Tuple>) returns (materialized: seq<Tuple>)
      modifies this`tuples
      ensures tuples == WriteAll(old(tuples), Materialized(inv, usr))
      ensures materialized == first + Materialized(inv, usr)
    {
      hide TupleKey;
      materialized := first;
      ghost var ts := Materialized(inv, usr);
      var i := 0;
      while i < |inv.preTuples|
        invariant 0 <= i <= |inv.preTuples|
        invariant tuples == WriteAll(old(tuples), ts[..i]) && materialized == first + ts[..i]
      {
        var pt := inv.preTuples[i];
        var t := Tuple("usr", usr, pt.relation, pt.objectType, pt.objectId);
        assert ts[..i + 1] == ts[..i] + [t] && ts[..i + 1][..i] == ts[..i];
        tuples := Write(tuples, t);
        materialized := materialized + [t];
        i := i + 1;
      }
      assert ts[..|inv.preTuples|] == ts;
    }

    method DeclineInvitation(invId: string, asUsrId: Option<string>, now: int) returns (r: Result<Invitation, Error>)
      requires Valid()
      modifies this
      ensures Valid()
      ensures var step := Step(old(Value()), Op.DeclineInvitation(invId, asUsrId, now));
        && Value() == step.next
        && (if step.error.Some? then r == Err(step.error.value) else invId in invitations && r == Ok(invitations[invId]))
    {
      hide Inv, TupleKey;
      StepKeepsInv(Value(), Op.DeclineInvitation(invId, asUsrId, now));
      if invId !in invitations {
        return Err(NotFound);
      }
      var inv := invitations[invId];
      if inv.status != Pending {
        return Err(InvitationNotPending);
      }
      inv := inv.(status := Declined, terminalAt := Some(now));
      if asUsrId.Some? {
        inv := inv.(terminalBy := asUsrId, invitedUserId := asUsrId);
      }
      invitations := invitations[invId := inv];
      return Ok(inv);
    }

    method RevokeInvitation(invId: string, adminUsrId: string, now: int) returns (r: Result<Invitation, Error>)
      requires Valid()
      modifies this
      ensures Valid()
      ensures var step := Step(old(Value()), Op.RevokeInvitation(invId, adminUsrId, now));
        && Value() == step.next
        && (if step.error.Some? then r == Err(step.error.value) else invId in invitations && r == Ok(invitations[invId]))
    {
      hide Inv, TupleKey;
      StepKeepsInv(Value(), Op.RevokeInvitation(invId, adminUsrId, now));
      if invId !in invitations {
        return Err(NotFound);
      }
      var inv := invitations[invId];
      if inv.status != Pending {
        return Err(InvitationNotPending);
      }
      inv := inv.(status := InvRevoked, terminalAt := Some(now), terminalBy := Some(adminUsrId));
      invitations := invitations[invId := inv];
      return Ok(inv);
    }
  }

  // ---------------------------------------------------------------- what the methods use

  lemma UntouchedByReplace(s: State, id: string, role: Role, newId: string, now: int, other: string)
    requires id in s.mems && other in s.mems && other != id && newId !in s.mems
    ensures var s' := Replace(s, id, role, newId, now);
      && newId in s'.mems && other in s'.mems && s'.mems[other] == s.mems[other]
      && s'.mems.Keys == s.mems.Keys + {newId}
      && s'.orgs == s.orgs && s'.invs == s.invs && s'.orgBySlug == s.orgBySlug
  {
  }

  lemma ReplaceIndex(s: State, id: string, role: Role, newId: string, now: int)
    requires id in s.mems
    ensures Replace(s, id, role, newId, now).activeMem == (s.activeMem - {s.mems[id].Key()})[s.mems[id].Key() := newId]
  {
  }
}
