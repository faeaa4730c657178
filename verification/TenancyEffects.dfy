/**
 * What every tenancy call does, seen from outside: when it succeeds, which error it gives otherwise, which
 * row, entry and tuple it leaves, and that everything else stays.
 */
module TenancyEffects {
  import opened Common
  import opened Keys
  import opened TenancyModel
  import opened TenancyInvariants

  /** The key of a user's tuple on an organization. */
  function OrgTupleKey(usrId: string, role: Role, orgId: string): string {
    NaturalKey("usr", usrId, role, "org", orgId)
  }

  /** The key holds the tuple of that user, role and organization. */
  ghost predicate HasOrgTuple(s: State, usrId: string, role: Role, orgId: string) {
    var key := OrgTupleKey(usrId, role, orgId);
    key in s.tuples && s.tuples[key] == Tuple("usr", usrId, role, "org", orgId)
  }

  /** The row is the only active owner of its organization. */
  ghost predicate SoleOwnerRow(s: State, id: string) {
    && id in s.mems && s.mems[id].status == Active && s.mems[id].role == "owner"
    && forall x :: x in s.mems && s.mems[x].orgId == s.mems[id].orgId && s.mems[x].status == Active && s.mems[x].role == "owner" ==> x == id
  }

  lemma SoleOwnerCount(s: State, id: string)
    requires id in s.mems && s.mems[id].status == Active
    ensures s.mems[id].role == "owner" && |Owners(s.mems, s.mems[id].orgId)| == 1 <==> SoleOwnerRow(s, id)
  {
    var owners := Owners(s.mems, s.mems[id].orgId);
    if s.mems[id].role == "owner" {
      assert id in owners;
      if |owners| == 1 {
        OnlyElement(owners, id);
        forall x | x in s.mems && s.mems[x].orgId == s.mems[id].orgId && s.mems[x].status == Active && s.mems[x].role == "owner"
          ensures x == id
        {
          assert x in owners;
        }
      }
      if SoleOwnerRow(s, id) {
        assert owners == {id};
      }
    }
  }

  // ---------------------------------------------------------------- organizations

  /** 1 to 63 lower-case letters, digits and hyphens, with no hyphen at either end. */
  ghost predicate SlugForm(slug: string) {
    && 1 <= |slug| <= 63 && slug[0] != '-' && slug[|slug| - 1] != '-'
    && forall c :: c in slug ==> 'a' <= c <= 'z' || '0' <= c <= '9' || c == '-'
  }

  lemma SlugForms(slug: string)
    ensures ValidSlug(slug) <==> SlugForm(slug)
  {
    if ValidSlug(slug) {
      forall c | c in slug ensures 'a' <= c <= 'z' || '0' <= c <= '9' || c == '-' {
        var i :| 0 <= i < |slug| && slug[i] == c;
        assert IsSlugChar(slug[i]);
      }
    }
    if SlugForm(slug) {
      assert forall i :: 0 <= i < |slug| ==> slug[i] in slug;
    }
  }

  /** Some organization that is not revoked, other than `but`, has the slug. */
  ghost predicate SlugTaken(s: State, slug: string, but: string) {
    exists o :: o in s.orgs && o != but && s.orgs[o].status != Revoked && s.orgs[o].slug == Some(slug)
  }

  lemma SlugIndexed(s: State, slug: string, but: string)
    requires Slugs(s.orgs, s.orgBySlug)
    ensures SlugTaken(s, slug, but) <==> slug in s.orgBySlug && s.orgBySlug[slug] != but
  {
  }

  /** Creation fails exactly on a malformed or taken slug. */
  lemma CreateOrgErrors(s: State, op: Op)
    requires Inv(s) && Fresh(s, op) && op.CreateOrg?
    ensures var out := Step(s, op);
      && (out.error == Some(Precondition("invalid_slug")) <==> op.slug.Some? && !SlugForm(op.slug.value))
      && (out.error == Some(OrgSlugConflict) <==> op.slug.Some? && SlugForm(op.slug.value) && SlugTaken(s, op.slug.value, op.orgId))
      && (out.error.Some? ==> out.error.value in {Precondition("invalid_slug"), OrgSlugConflict} && out.next == s)
  {
    assert Step(s, op) == StepCreateOrg(s, op);
    hide Step;
    if op.slug.Some? {
      SlugForms(op.slug.value);
      SlugIndexed(s, op.slug.value, op.orgId);
      assert op.slug.value in s.orgBySlug ==> s.orgBySlug[op.slug.value] != op.orgId;
    }
    hide Inv, NaturalKey, SlugForm, ValidSlug, SlugTaken, Enroll;
  }

  /** Otherwise there is an active organization under its slug, with its creator as owner. */
  lemma CreateOrgEffect(s: State, op: Op)
    requires Fresh(s, op) && op.CreateOrg? && Step(s, op).error.None?
    ensures var s' := Step(s, op).next;
      && op.orgId in s'.orgs && s'.orgs[op.orgId] == Organization(op.orgId, Active, op.now, op.now, op.name, op.slug)
      && op.memId in s'.mems
      && s'.mems[op.memId] == Membership(op.memId, op.creator, op.orgId, "owner", Active, None, None, None, op.now, op.now)
      && (op.orgId, op.creator) in s'.activeMem && s'.activeMem[(op.orgId, op.creator)] == op.memId
      && HasOrgTuple(s', op.creator, "owner", op.orgId)
      && (op.slug.Some? ==> op.slug.value in s'.orgBySlug && s'.orgBySlug[op.slug.value] == op.orgId)
      && SameBut(s.orgs, s'.orgs, {op.orgId}) && SameBut(s.mems, s'.mems, {op.memId})
      && SameBut(s.activeMem, s'.activeMem, {(op.orgId, op.creator)})
      && SameBut(s.tuples, s'.tuples, {OrgTupleKey(op.creator, "owner", op.orgId)})
      && SameBut(s.orgBySlug, s'.orgBySlug, if op.slug.Some? then {op.slug.value} else {}) && s'.invs == s.invs
  {
    assert Step(s, op) == StepCreateOrg(s, op);
    var s1 := s.(orgs := s.orgs[op.orgId := Organization(op.orgId, Active, op.now, op.now, op.name, op.slug)],
                 orgBySlug := if op.slug.Some? then s.orgBySlug[op.slug.value := op.orgId] else s.orgBySlug);
    var m := Membership(op.memId, op.creator, op.orgId, OWNER, Active, None, None, None, op.now, op.now);
    hide Step, ValidSlug;
    assert StepCreateOrg(s, op).next == Enroll(s1, m);
    hide StepCreateOrg;
    AddEnters(s1, m);
    assert Entered(s1, Enroll(s1, m), m);
    hide Enroll, TupleKey, Write, NaturalKey;
  }

  /** An update takes a known organization that is not revoked, and fails on a malformed slug or one of another organization. */
  lemma UpdateOrgErrors(s: State, op: Op)
    requires Inv(s) && op.UpdateOrg?
    ensures var out, sets := Step(s, op), op.orgId in s.orgs && s.orgs[op.orgId].status != Revoked && op.update.slug.Some? && !op.update.clearSlug;
      && (out.error == Some(NotFound) <==> op.orgId !in s.orgs)
      && (out.error == Some(AlreadyTerminal) <==> op.orgId in s.orgs && s.orgs[op.orgId].status == Revoked)
      && (out.error == Some(Precondition("invalid_slug")) <==> sets && !SlugForm(op.update.slug.value))
      && (out.error == Some(OrgSlugConflict) <==> sets && SlugForm(op.update.slug.value) && SlugTaken(s, op.update.slug.value, op.orgId))
      && (out.error.Some? ==>
            out.error.value in {NotFound, AlreadyTerminal, Precondition("invalid_slug"), OrgSlugConflict} && out.next == s)
  {
    assert Step(s, op) == StepUpdateOrg(s, op);
    hide Step, DropSlug;
    if op.update.slug.Some? {
      SlugForms(op.update.slug.value);
      SlugIndexed(s, op.update.slug.value, op.orgId);
    }
    hide Inv, SlugForm, ValidSlug, SlugTaken;
  }

  /** Otherwise a field is cleared, set or kept, clearing wins, and the slug index follows. */
  lemma UpdateOrgEffect(s: State, op: Op)
    requires Inv(s) && op.UpdateOrg? && Step(s, op).error.None?
    ensures op.orgId in s.orgs && op.orgId in Step(s, op).next.orgs
    ensures var s' := Step(s, op).next;
      && (var o, o' := s.orgs[op.orgId], s'.orgs[op.orgId];
            && o'.id == op.orgId && o'.status == o.status && o'.createdAt == o.createdAt && o'.updatedAt == op.now
            && o'.name == (if op.update.clearName then None else if op.update.name.Some? then op.update.name else o.name)
            && o'.slug == (if op.update.clearSlug then None else if op.update.slug.Some? then op.update.slug else o.slug))
      && SameBut(s.orgs, s'.orgs, {op.orgId}) && Slugs(s'.orgs, s'.orgBySlug)
      && s'.mems == s.mems && s'.invs == s.invs && s'.tuples == s.tuples && s'.activeMem == s.activeMem
  {
    assert Step(s, op) == StepUpdateOrg(s, op);
    hide Step;
    UpdatedSlugs(s, op);
    assert op.orgId in s.orgs && s.orgs[op.orgId].id == op.orgId;
    hide Inv, Slugs, ValidSlug, DropSlug;
  }

  lemma UpdatedSlugs(s: State, op: Op)
    requires Inv(s) && op.UpdateOrg?
    ensures Slugs(StepUpdateOrg(s, op).next.orgs, StepUpdateOrg(s, op).next.orgBySlug)
  {
    UpdateOrgKeepsInv(s, op);
    hide StepUpdateOrg;
  }

  /** A known organization that is not revoked is suspended, reinstated from suspension, or revoked. */
  lemma TransitionOrgErrors(s: State, op: Op)
    requires op.TransitionOrg?
    ensures var out := Step(s, op);
      && (out.error == Some(NotFound) <==> op.orgId !in s.orgs)
      && (out.error == Some(AlreadyTerminal) <==> op.orgId in s.orgs && s.orgs[op.orgId].status == Revoked)
      && (out.error == Some(Precondition("invalid_transition")) <==> op.orgId in s.orgs && s.orgs[op.orgId].status == Active && op.target == Active)
      && (out.error.Some? ==> out.error.value in {NotFound, AlreadyTerminal, Precondition("invalid_transition")} && out.next == s)
  {
    assert Step(s, op) == StepTransitionOrg(s, op);
    hide Step, RetireAll, ActiveIn, DropSlug;
  }

  /** Suspension and reinstatement change only its status and time. */
  lemma OrgStatusEffect(s: State, op: Op)
    requires op.TransitionOrg? && op.target != Revoked && Step(s, op).error.None?
    ensures op.orgId in s.orgs
    ensures var o, s' := s.orgs[op.orgId], Step(s, op).next;
      && op.orgId in s'.orgs && s'.orgs[op.orgId] == o.(status := op.target, updatedAt := op.now)
      && SameBut(s.orgs, s'.orgs, {op.orgId}) && s'.invs == s.invs
      && s'.mems == s.mems && s'.tuples == s.tuples && s'.activeMem == s.activeMem && s'.orgBySlug == s.orgBySlug
  {
    assert Step(s, op) == StepTransitionOrg(s, op);
    hide Step, RetireAll, ActiveIn, DropSlug;
  }

  /** A revocation also ends its active memberships with their entries and tuples, and frees its slug. */
  lemma OrgEndEffect(s: State, op: Op)
    requires Inv(s) && op.TransitionOrg? && op.target == Revoked && Step(s, op).error.None?
    ensures op.orgId in s.orgs
    ensures var o, s' := s.orgs[op.orgId], Step(s, op).next;
      && op.orgId in s'.orgs && s'.orgs[op.orgId] == o.(status := Revoked, updatedAt := op.now)
      && SameBut(s.orgs, s'.orgs, {op.orgId}) && s'.invs == s.invs
      && MembersEnd(s.mems, s.activeMem, s.tuples, s'.mems, s'.activeMem, s'.tuples, op.orgId, op.stamps)
      && SlugGone(s.orgBySlug, s'.orgBySlug, op.orgId)
  {
    assert Step(s, op) == StepTransitionOrg(s, op);
    hide Step;
    OrgEnds(s, op.orgId, s.orgs[op.orgId].(status := Revoked, updatedAt := op.now), op.stamps);
    hide Inv, RetireAll, ActiveIn, DropSlug, MembersEnd, SlugGone;
  }

  lemma OrgEnds(s: State, orgId: string, o: Organization, stamps: string -> int)
    requires Inv(s) && orgId in s.orgs && s.orgs[orgId].status != Revoked
    ensures var s2 := RetireAll(s.(orgs := s.orgs[orgId := o]), ActiveIn(s.mems, orgId), stamps);
      && s2.orgs == s.orgs[orgId := o] && s2.invs == s.invs && s2.orgBySlug == s.orgBySlug
      && MembersEnd(s.mems, s.activeMem, s.tuples, s2.mems, s2.activeMem, s2.tuples, orgId, stamps)
      && SlugGone(s.orgBySlug, DropSlug(s2.orgBySlug, s.orgs[orgId].slug), orgId)
  {
    AllMembersEnd(s.(orgs := s.orgs[orgId := o]), orgId, stamps);
    FreedSlug(s.orgs, s.orgBySlug, orgId);
    hide MembersEnd, SlugGone, Inv, DropSlug, TupleKey;
  }

  /** The index loses exactly the slug of the organization. */
  ghost predicate SlugGone(index: map<string, string>, index': map<string, string>, o: string) {
    && (forall slug :: slug in index' <==> slug in index && index[slug] != o)
    && (forall slug :: slug in index' ==> index'[slug] == index[slug])
  }

  lemma FreedSlug(orgs: Orgs, index: map<string, string>, o: string)
    requires Slugs(orgs, index) && o in orgs && orgs[o].status != Revoked
    ensures SlugGone(index, DropSlug(index, orgs[o].slug), o)
  {
  }

  /** Exactly the active memberships of the organization end, each at its own time, and with them their entries and tuple keys. */
  ghost predicate MembersEnd(mems: Mems, index: map<(string, string), string>, tuples: map<string, Tuple>,
                             mems': Mems, index': map<(string, string), string>, tuples': map<string, Tuple>,
                             orgId: string, stamps: string -> int)
  {
    && mems'.Keys == mems.Keys
    && (forall id :: id in mems ==>
          mems'[id] == if mems[id].orgId == orgId && mems[id].status == Active
                       then mems[id].(status := Revoked, updatedAt := stamps(id)) else mems[id])
    && (forall key :: key in index' <==> key in index && key.0 != orgId)
    && (forall key :: key in index' ==> index'[key] == index[key])
    && (forall key :: key in tuples' <==>
          key in tuples && forall id :: id in mems && mems[id].orgId == orgId && mems[id].status == Active ==>
                             key != OrgTupleKey(mems[id].usrId, mems[id].role, orgId))
    && (forall key :: key in tuples' ==> tuples'[key] == tuples[key])
  }

  lemma AllMembersEnd(s: State, orgId: string, stamps: string -> int)
    requires IndexSound(s.mems, s.activeMem)
    ensures var s' := RetireAll(s, ActiveIn(s.mems, orgId), stamps);
      && s'.orgs == s.orgs && s'.invs == s.invs && s'.orgBySlug == s.orgBySlug
      && MembersEnd(s.mems, s.activeMem, s.tuples, s'.mems, s'.activeMem, s'.tuples, orgId, stamps)
  {
    hide NaturalKey;
    var ids := ActiveIn(s.mems, orgId);
    var s' := RetireAll(s, ids, stamps);
    forall key | key in s.activeMem ensures key in s'.activeMem <==> key.0 != orgId {
      assert s.mems[s.activeMem[key]].Key() == key;
      if key.0 == orgId {
        assert s.activeMem[key] in ids;
      }
    }
    forall key | key in s.tuples
      ensures key in s'.tuples <==> forall id :: id in ids ==> key != OrgTupleKey(s.mems[id].usrId, s.mems[id].role, orgId)
    {
      assert forall id :: id in ids ==> TupleKey(s.mems[id].RoleTuple()) == OrgTupleKey(s.mems[id].usrId, s.mems[id].role, orgId);
    }
  }

  // ---------------------------------------------------------------- entering

  /** Nothing but one membership, its index entry and the tuple of its role differs, and these are there. */
  ghost predicate Entered(s: State, s': State, m: Membership) {
    && m.id in s'.mems && s'.mems[m.id] == m && SameBut(s.mems, s'.mems, {m.id})
    && (m.orgId, m.usrId) in s'.activeMem && s'.activeMem[(m.orgId, m.usrId)] == m.id
    && SameBut(s.activeMem, s'.activeMem, {(m.orgId, m.usrId)})
    && HasOrgTuple(s', m.usrId, m.role, m.orgId) && SameBut(s.tuples, s'.tuples, {OrgTupleKey(m.usrId, m.role, m.orgId)})
    && s'.orgs == s.orgs && s'.invs == s.invs && s'.orgBySlug == s.orgBySlug
  }

  /** Nothing but one row, its index entry and the tuple key of its role differs, and the entry and the key are gone. */
  ghost predicate Departed(s: State, s': State, m: Membership) {
    && m.id in s'.mems && s'.mems[m.id] == m && SameBut(s.mems, s'.mems, {m.id})
    && (m.orgId, m.usrId) !in s'.activeMem && SameBut(s.activeMem, s'.activeMem, {(m.orgId, m.usrId)})
    && OrgTupleKey(m.usrId, m.role, m.orgId) !in s'.tuples && SameBut(s.tuples, s'.tuples, {OrgTupleKey(m.usrId, m.role, m.orgId)})
    && s'.orgs == s.orgs && s'.invs == s.invs && s'.orgBySlug == s.orgBySlug
  }

  lemma AddEnters(s: State, m: Membership)
    ensures Entered(s, s.(mems := s.mems[m.id := m], activeMem := s.activeMem[m.Key() := m.id], tuples := Write(s.tuples, m.RoleTuple())), m)
  {
    hide NaturalKey;
  }

  lemma DropDeparts(s: State, m: Membership)
    requires m.id in s.mems
    ensures Departed(s, s.(mems := s.mems[m.id := m], activeMem := s.activeMem - {m.Key()}, tuples := s.tuples - {TupleKey(m.RoleTuple())}), m)
  {
    hide NaturalKey;
  }

  /** A user is added to a known organization unless already an active member. */
  lemma AddMemberEffect(s: State, op: Op)
    requires Inv(s) && Fresh(s, op) && op.AddMember?
    ensures var out := Step(s, op);
      && (out.error == Some(NotFound) <==> op.orgId !in s.orgs)
      && (out.error == Some(DuplicateMembership) <==> op.orgId in s.orgs && (op.orgId, op.usrId) in s.activeMem)
      && (out.error.Some? ==> out.error.value in {NotFound, DuplicateMembership} && out.next == s)
      && (out.error.None? ==>
            Entered(s, out.next, Membership(op.memId, op.usrId, op.orgId, op.role, Active, None, op.invitedBy, None, op.now, op.now)))
  {
    assert Step(s, op) == StepAddMember(s, op);
    AddEnters(s, Membership(op.memId, op.usrId, op.orgId, op.role, Active, None, op.invitedBy, None, op.now, op.now));
    hide Step, Inv, Entered, TupleKey, Write;
  }

  /** A suspended row becomes active again unless its user has an active one. */
  lemma ReinstateEffect(s: State, op: Op)
    requires Inv(s) && op.ReinstateMembership?
    ensures var out := Step(s, op);
      && (op.memId !in s.mems ==> out == Outcome(s, Some(NotFound)))
      && (op.memId in s.mems ==>
            var m := s.mems[op.memId];
            && (m.status == Revoked ==> out == Outcome(s, Some(AlreadyTerminal)))
            && (m.status == Active ==> out == Outcome(s, Some(Precondition("invalid_transition"))))
            && (m.status == Suspended && (m.orgId, m.usrId) in s.activeMem ==> out == Outcome(s, Some(DuplicateMembership)))
            && (m.status == Suspended && (m.orgId, m.usrId) !in s.activeMem ==>
                  out.error.None? && Entered(s, out.next, m.(status := Active, updatedAt := op.now))))
  {
    assert Step(s, op) == StepReinstate(s, op);
    hide Step;
    if op.memId in s.mems {
      var m := s.mems[op.memId];
      var m' := m.(status := Active, updatedAt := op.now);
      assert m.id == op.memId && m'.Key() == m.Key() && m'.RoleTuple() == m.RoleTuple();
      AddEnters(s, m');
    }
    hide Inv, Entered, TupleKey, Write;
  }

  // ---------------------------------------------------------------- leaving

  /** An active or suspended row is suspended unless it is the only active owner. */
  lemma SuspendEffect(s: State, op: Op)
    requires Inv(s) && op.SuspendMembership?
    ensures var out := Step(s, op);
      && (op.memId !in s.mems ==> out == Outcome(s, Some(NotFound)))
      && (op.memId in s.mems && s.mems[op.memId].status == Revoked ==> out == Outcome(s, Some(AlreadyTerminal)))
      && (SoleOwnerRow(s, op.memId) ==> out == Outcome(s, Some(SoleOwner)))
      && (op.memId in s.mems && s.mems[op.memId].status != Revoked && !SoleOwnerRow(s, op.memId) ==>
            out.error.None? && Departed(s, out.next, s.mems[op.memId].(status := Suspended, updatedAt := op.now)))
  {
    assert Step(s, op) == StepSuspend(s, op);
    hide Step;
    if op.memId in s.mems {
      assert s.mems[op.memId].id == op.memId;
      var m' := s.mems[op.memId].(status := Suspended, updatedAt := op.now);
      assert m'.Key() == s.mems[op.memId].Key() && m'.RoleTuple() == s.mems[op.memId].RoleTuple();
      DropDeparts(s, m');
      if s.mems[op.memId].status == Active {
        SoleOwnerCount(s, op.memId);
      } else {
        assert !SoleOwnerRow(s, op.memId);
      }
    }
    hide Inv, Owners, SoleOwnerRow, Departed, TupleKey;
  }

  /** An active row that is not the only active owner simply leaves. */
  lemma SelfLeaveEffect(s: State, op: Op)
    requires Inv(s) && Fresh(s, op) && op.SelfLeave?
    ensures var out := Step(s, op);
      && (op.memId !in s.mems ==> out == Outcome(s, Some(NotFound)))
      && (op.memId in s.mems && s.mems[op.memId].status != Active ==> out == Outcome(s, Some(Precondition("mem_not_active"))))
      && (op.memId in s.mems && s.mems[op.memId].status == Active && !SoleOwnerRow(s, op.memId) ==>
            && out.error.None?
            && var m := s.mems[op.memId];
               Departed(s, out.next, m.(status := Revoked, removedBy := Some(m.usrId), updatedAt := op.now)))
  {
    assert Step(s, op) == StepSelfLeave(s, op);
    hide Step, Replace;
    if op.memId in s.mems {
      assert s.mems[op.memId].id == op.memId;
      RetireDeparts(s, op.memId, s.mems[op.memId].usrId, op.now);
      if s.mems[op.memId].status == Active {
        SoleOwnerCount(s, op.memId);
      }
    }
    hide Inv, Owners, SoleOwnerRow, Retire, Departed;
  }

  /** The only active owner leaves to another active member: the member's row is succeeded by an owner row, then the leaver's row is
      revoked with its entry and tuple; without such a member nothing happens. */
  lemma HandOverEffect(s: State, op: Op)
    requires Inv(s) && Fresh(s, op) && op.SelfLeave? && SoleOwnerRow(s, op.memId)
    ensures var out, m := Step(s, op), s.mems[op.memId];
      && (op.transferTo.None? ==> out == Outcome(s, Some(SoleOwner)))
      && (op.transferTo.Some? && (m.orgId, op.transferTo.value) !in s.activeMem ==> out == Outcome(s, Some(NotFound)))
      && (op.transferTo.Some? && (m.orgId, op.transferTo.value) in s.activeMem ==>
            var tt := s.activeMem[(m.orgId, op.transferTo.value)];
            && (tt == op.memId ==> out == Outcome(s, Some(Precondition("already_owner"))))
            && (tt != op.memId ==>
                  && out.error.None? && tt in s.mems && s.mems[tt].usrId == op.transferTo.value
                  && exists s1: State ::
                       && Succeeded(s, s1, tt, "owner", op.newId, op.promotedAt)
                       && op.memId in s1.mems && s1.mems[op.memId] == m
                       && Departed(s1, out.next, m.(status := Revoked, removedBy := Some(m.usrId), updatedAt := op.now))))
  {
    assert Step(s, op) == StepSelfLeave(s, op);
    hide Step;
    SoleOwnerCount(s, op.memId);
    var m := s.mems[op.memId];
    assert m.id == op.memId && MustTransfer(s, m);
    if op.transferTo.Some? && (m.orgId, op.transferTo.value) in s.activeMem {
      var tt := s.activeMem[(m.orgId, op.transferTo.value)];
      assert s.mems[tt].Key() == (m.orgId, op.transferTo.value) && s.mems[tt].status == Active && s.mems[tt].id == tt;
      assert s.mems[tt].role == "owner" <==> tt == op.memId;
      if tt != op.memId {
        var s1 := Replace(s, tt, OWNER, op.newId, op.promotedAt);
        assert s1.mems[op.memId] == m;
        hide Inv, NaturalKey, Owners, SoleOwnerRow, MustTransfer, Replace;
        ReplaceSucceeds(s, tt, OWNER, op.newId, op.promotedAt);
        RetireDeparts(s1, op.memId, m.usrId, op.now);
        hide Succeeded, Departed, Retire;
      }
    }
  }

  lemma RetireDeparts(s: State, id: string, removedBy: string, now: int)
    requires id in s.mems && s.mems[id].id == id
    ensures Departed(s, Retire(s, id, Some(removedBy), now), s.mems[id].(status := Revoked, removedBy := Some(removedBy), updatedAt := now))
  {
    hide NaturalKey;
  }

  /** After a handover to another user the successor's row, entry and tuple are all there. */
  lemma SuccessorStays(s: State, s1: State, s': State, tt: string, newId: string, promotedAt: int, gone: Membership)
    requires tt in s.mems && Succeeded(s, s1, tt, "owner", newId, promotedAt) && Departed(s1, s', gone)
    requires gone.role == "owner" && gone.orgId == s.mems[tt].orgId && gone.usrId != s.mems[tt].usrId && gone.id != newId
    ensures newId in s'.mems && s'.mems[newId].status == Active && s'.mems[newId].role == "owner" && s'.mems[newId].usrId == s.mems[tt].usrId
    ensures var key := (s.mems[tt].orgId, s.mems[tt].usrId); key in s'.activeMem && s'.activeMem[key] == newId
    ensures HasOrgTuple(s', s.mems[tt].usrId, "owner", s.mems[tt].orgId)
  {
    var t := s.mems[tt];
    if OrgTupleKey(gone.usrId, "owner", gone.orgId) == OrgTupleKey(t.usrId, "owner", gone.orgId) {
      KeyNamesUser(gone.usrId, t.usrId, "owner", gone.orgId);
    }
    hide NaturalKey;
    SameButMeans(s1.mems, s'.mems, {gone.id}, newId);
    SameButMeans(s1.activeMem, s'.activeMem, {(gone.orgId, gone.usrId)}, (t.orgId, t.usrId));
    SameButMeans(s1.tuples, s'.tuples, {OrgTupleKey(gone.usrId, gone.role, gone.orgId)}, OrgTupleKey(t.usrId, "owner", t.orgId));
  }

  /** Tuple keys of two users in one role of one organization differ. */
  lemma KeyNamesUser(usr: string, usr': string, role: Role, orgId: string)
    requires OrgTupleKey(usr, role, orgId) == OrgTupleKey(usr', role, orgId)
    ensures usr == usr'
  {
    var tail := "|" + (role + "|" + ("org" + "|" + orgId));
    var k, k' := OrgTupleKey(usr, role, orgId), OrgTupleKey(usr', role, orgId);
    assert k == "usr|" + (usr + tail) && k' == "usr|" + (usr' + tail);
    assert k[4..] == usr + tail && k'[4..] == usr' + tail;
    assert (usr + tail)[..|usr|] == usr && (usr' + tail)[..|usr'|] == usr';
  }

  /** A removal takes an active row and an indexed active admin or owner of its organization; an admin cannot remove an owner, and nobody
      the only active owner. */
  lemma AdminRemoveEffect(s: State, op: Op)
    requires Inv(s) && op.AdminRemove?
    ensures var out := Step(s, op);
      && (op.memId !in s.mems ==> out == Outcome(s, Some(NotFound)))
      && (op.memId in s.mems && s.mems[op.memId].status != Active ==> out == Outcome(s, Some(Precondition("mem_not_active"))))
      && (op.memId in s.mems && s.mems[op.memId].status == Active ==>
            var m := s.mems[op.memId];
            var key := (m.orgId, op.adminUsrId);
            var role := if key in s.activeMem && s.activeMem[key] in s.mems then s.mems[s.activeMem[key]].role else "";
            && (out.error == Some(Forbidden) <==> role != "owner" && role != "admin")
            && (out.error == Some(RoleHierarchy) <==> role == "admin" && m.role == "owner")
            && (out.error == Some(SoleOwner) <==> role == "owner" && SoleOwnerRow(s, op.memId))
            && (out.error.Some? ==> out.error.value in {Forbidden, RoleHierarchy, SoleOwner} && out.next == s)
            && (out.error.None? ==>
                  Departed(s, out.next, m.(status := Revoked, removedBy := Some(op.adminUsrId), updatedAt := op.now))))
  {
    assert Step(s, op) == StepAdminRemove(s, op);
    hide Step;
    if op.memId in s.mems {
      assert s.mems[op.memId].id == op.memId;
      RetireDeparts(s, op.memId, op.adminUsrId, op.now);
      if s.mems[op.memId].status == Active {
        SoleOwnerCount(s, op.memId);
      }
    }
    hide Inv, Owners, SoleOwnerRow, Retire, Departed;
  }

  // ---------------------------------------------------------------- changing roles

  /** A change to another role revokes the row and adds its successor, unless the row is the only active owner. */
  lemma ChangeRoleEffect(s: State, op: Op)
    requires Inv(s) && Fresh(s, op) && op.ChangeRole?
    ensures var out := Step(s, op);
      && (op.memId !in s.mems ==> out == Outcome(s, Some(NotFound)))
      && (op.memId in s.mems && s.mems[op.memId].status != Active ==> out == Outcome(s, Some(Precondition("mem_not_active"))))
      && (op.memId in s.mems && s.mems[op.memId].status == Active && s.mems[op.memId].role == op.role ==> out == Outcome(s, None))
      && (op.memId in s.mems && s.mems[op.memId].status == Active && s.mems[op.memId].role != op.role ==>
            && (SoleOwnerRow(s, op.memId) ==> out == Outcome(s, Some(SoleOwner)))
            && (!SoleOwnerRow(s, op.memId) ==> out.error.None? && Succeeded(s, out.next, op.memId, op.role, op.newId, op.now)))
  {
    if op.memId in s.mems {
      assert s.mems[op.memId].id == op.memId;
      if s.mems[op.memId].status == Active {
        SoleOwnerCount(s, op.memId);
        if s.mems[op.memId].role != op.role {
          ReplaceSucceeds(s, op.memId, op.role, op.newId, op.now);
        }
      }
    }
    hide Inv, NaturalKey, Owners, SoleOwnerRow, Replace, Succeeded;
  }

  /** The old row is revoked at `now`; a new active row of the same user and organization in the new role replaces it, indexed and with
      its tuple, and the old role's tuple key is free unless the new tuple took it. */
  ghost predicate Succeeded(s: State, s': State, id: string, role: Role, newId: string, now: int)
    requires id in s.mems
  {
    var m := s.mems[id];
    && s'.mems.Keys == s.mems.Keys + {newId}
    && s'.mems[id] == m.(status := Revoked, updatedAt := now)
    && s'.mems[newId] == Membership(newId, m.usrId, m.orgId, role, Active, Some(id), m.invitedBy, None, now, now)
    && SameBut(s.mems, s'.mems, {id, newId})
    && (m.orgId, m.usrId) in s'.activeMem && s'.activeMem[(m.orgId, m.usrId)] == newId
    && SameBut(s.activeMem, s'.activeMem, {(m.orgId, m.usrId)})
    && HasOrgTuple(s', m.usrId, role, m.orgId)
    && (OrgTupleKey(m.usrId, m.role, m.orgId) in s'.tuples ==>
          OrgTupleKey(m.usrId, m.role, m.orgId) == OrgTupleKey(m.usrId, role, m.orgId))
    && SameBut(s.tuples, s'.tuples, {OrgTupleKey(m.usrId, m.role, m.orgId), OrgTupleKey(m.usrId, role, m.orgId)})
    && s'.orgs == s.orgs && s'.invs == s.invs && s'.orgBySlug == s.orgBySlug
  }

  lemma ReplaceSucceeds(s: State, id: string, role: Role, newId: string, now: int)
    requires id in s.mems && s.mems[id].id == id && newId !in s.mems
    ensures Succeeded(s, Replace(s, id, role, newId, now), id, role, newId, now)
  {
    hide NaturalKey;
  }

  /** Ownership goes from an active owner to another active row of the organization: the receiving row is succeeded by an owner row,
      then the giving row by a member row. */
  lemma TransferEffect(s: State, op: Op)
    requires Inv(s) && Fresh(s, op) && op.TransferOwnership?
    ensures var out := Step(s, op);
      && (out.error == Some(Precondition("self_transfer")) <==> op.fromId == op.toId)
      && (out.error == Some(Precondition("not_active_owner")) <==> op.fromId != op.toId && !ActiveOwner(s, op.fromId, op.orgId))
      && (out.error == Some(Precondition("not_active_member")) <==>
            op.fromId != op.toId && ActiveOwner(s, op.fromId, op.orgId) && !ActiveRow(s, op.toId, op.orgId))
      && (out.error.Some? ==>
            && out.error.value in {Precondition("self_transfer"), Precondition("not_active_owner"), Precondition("not_active_member")}
            && out.next == s)
      && (out.error.None? ==>
            exists s1: State ::
              && op.toId in s.mems && Succeeded(s, s1, op.toId, "owner", op.newToId, op.promotedAt)
              && op.fromId in s1.mems && s1.mems[op.fromId] == s.mems[op.fromId]
              && Succeeded(s1, out.next, op.fromId, "member", op.newFromId, op.demotedAt))
  {
    if ActiveOwner(s, op.fromId, op.orgId) && ActiveRow(s, op.toId, op.orgId) && op.fromId != op.toId {
      assert s.mems[op.fromId].id == op.fromId && s.mems[op.toId].id == op.toId;
      var s1 := Replace(s, op.toId, OWNER, op.newToId, op.promotedAt);
      assert s1.mems[op.fromId] == s.mems[op.fromId] && op.newFromId !in s1.mems;
      hide Inv, NaturalKey, Replace, Succeeded;
      ReplaceSucceeds(s, op.toId, OWNER, op.newToId, op.promotedAt);
      ReplaceSucceeds(s1, op.fromId, MEMBER, op.newFromId, op.demotedAt);
    }
  }

  ghost predicate ActiveRow(s: State, id: string, orgId: string) {
    id in s.mems && s.mems[id].orgId == orgId && s.mems[id].status == Active
  }

  ghost predicate ActiveOwner(s: State, id: string, orgId: string) {
    ActiveRow(s, id, orgId) && s.mems[id].role == "owner"
  }

  // ---------------------------------------------------------------- invitations

  /** Nothing but one invitation differs. */
  ghost predicate OnlyInvitation(s: State, s': State, inv: Invitation) {
    && inv.id in s'.invs && s'.invs[inv.id] == inv && SameBut(s.invs, s'.invs, {inv.id})
    && s'.mems == s.mems && s'.orgs == s.orgs && s'.tuples == s.tuples && s'.activeMem == s.activeMem && s'.orgBySlug == s.orgBySlug
  }

  /** Known organizations invite. */
  lemma CreateInvitationEffect(s: State, op: Op)
    requires Inv(s) && Fresh(s, op) && op.CreateInvitation?
    ensures var out := Step(s, op);
      && (op.orgId !in s.orgs ==> out == Outcome(s, Some(NotFound)))
      && (op.orgId in s.orgs ==>
            && out.error.None?
            && OnlyInvitation(s, out.next, Invitation(op.invId, op.orgId, op.identifier, op.role, Pending, op.preTuples, op.inviter, None,
                                                      op.now, op.expiresAt, None, None)))
  {
    hide Inv;
  }

  /** Looking at a pending invitation at or after its expiry expires it, and looking changes nothing else. */
  lemma GetInvitationEffect(s: State, op: Op)
    requires Inv(s) && op.GetInvitation?
    ensures var out := Step(s, op);
      && (op.invId !in s.invs ==> out == Outcome(s, Some(NotFound)))
      && (op.invId in s.invs ==>
            && out.error.None?
            && var inv := s.invs[op.invId];
               OnlyInvitation(s, out.next, if inv.status == Pending && inv.expiresAt <= op.now
                                           then inv.(status := Expired, terminalAt := Some(op.terminalAt)) else inv))
  {
    if op.invId in s.invs {
      assert s.invs[op.invId].id == op.invId;
    }
    hide Inv;
  }

  /** The errors of an acceptance in order; at or after its expiry a pending invitation is expired. */
  lemma AcceptErrors(s: State, op: Op)
    requires Inv(s) && op.AcceptInvitation?
    ensures var out, usr := Step(s, op), if op.asUsrId.Some? then op.asUsrId.value else op.mintedUsrId;
      && (op.invId !in s.invs ==> out == Outcome(s, Some(NotFound)))
      && (op.invId in s.invs ==>
            var inv := s.invs[op.invId];
            var open := inv.status == Pending && op.checkedAt < inv.expiresAt;
            && (inv.status != Pending ==> out == Outcome(s, Some(InvitationNotPending)))
            && (inv.status == Pending && inv.expiresAt <= op.checkedAt ==>
                  out.error == Some(InvitationExpired)
                  && OnlyInvitation(s, out.next, inv.(status := Expired, terminalAt := Some(op.now))))
            && (open && op.asUsrId.Some? && op.acceptingIdentifier.None? ==> out == Outcome(s, Some(IdentifierBindingRequired)))
            && (open && op.asUsrId.Some? && op.acceptingIdentifier.Some? && op.acceptingIdentifier.value != inv.identifier ==>
                  out == Outcome(s, Some(IdentifierMismatch)))
            && (open && (op.asUsrId.Some? ==> op.acceptingIdentifier == Some(inv.identifier)) && (inv.orgId, usr) in s.activeMem ==>
                  out == Outcome(s, Some(DuplicateMembership)))
            && (open && (op.asUsrId.Some? ==> op.acceptingIdentifier == Some(inv.identifier)) && (inv.orgId, usr) !in s.activeMem ==>
                  out.error.None?))
  {
    if op.invId in s.invs {
      assert s.invs[op.invId].id == op.invId;
    }
    hide Inv, NaturalKey, WriteAll;
  }

  /** Exactly a pending invitation is declined, at any time. */
  lemma DeclineEffect(s: State, op: Op)
    requires Inv(s) && op.DeclineInvitation?
    ensures var out := Step(s, op);
      && (op.invId !in s.invs ==> out == Outcome(s, Some(NotFound)))
      && (op.invId in s.invs && s.invs[op.invId].status != Pending ==> out == Outcome(s, Some(InvitationNotPending)))
      && (op.invId in s.invs && s.invs[op.invId].status == Pending ==>
            && out.error.None?
            && var inv := s.invs[op.invId];
               OnlyInvitation(s, out.next,
                 inv.(status := Declined, terminalAt := Some(op.now),
                      terminalBy := if op.asUsrId.Some? then op.asUsrId else inv.terminalBy,
                      invitedUserId := if op.asUsrId.Some? then op.asUsrId else inv.invitedUserId)))
  {
    if op.invId in s.invs {
      assert s.invs[op.invId].id == op.invId;
    }
    hide Inv;
  }

  /** Exactly a pending invitation is withdrawn, at any time. */
  lemma WithdrawEffect(s: State, op: Op)
    requires Inv(s) && op.RevokeInvitation?
    ensures var out := Step(s, op);
      && (op.invId !in s.invs ==> out == Outcome(s, Some(NotFound)))
      && (op.invId in s.invs && s.invs[op.invId].status != Pending ==> out == Outcome(s, Some(InvitationNotPending)))
      && (op.invId in s.invs && s.invs[op.invId].status == Pending ==>
            && out.error.None?
            && OnlyInvitation(s, out.next,
                 s.invs[op.invId].(status := InvRevoked, terminalAt := Some(op.now), terminalBy := Some(op.adminUsrId))))
  {
    if op.invId in s.invs {
      assert s.invs[op.invId].id == op.invId;
    }
    hide Inv;
  }
}
