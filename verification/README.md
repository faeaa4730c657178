# Verification model of the identity, tenancy and authorization stores

A Dafny model, with proofs, of the in-memory stores and codecs of the repository: relationship
tuples and rewrite rules, share tokens, organizations with memberships and invitations, users with
credentials, sessions and personal access tokens, and the CBOR/COSE, base32 and PHC codecs.
`dafny verify dfyconfig.toml` checks the whole project.

| file | what it models |
|---|---|
| `Rewrite.dfy` | the bounded, path-cut search over rewrite rules and the least fixed point it decides |
| `Keys.dfy`, `TupleStore.dfy`, `Paging.dfy` | the tuple store (two maps changed together), its natural keys, its `Check`, and cursor pagination |
| `Shares.dfy` | share tokens |
| `TenancyModel.dfy` | the tenancy state and one step function per call |
| `TenancyInvariants.dfy`, `TenancyHistory.dfy` | what every call keeps: owners, replacement chains, the effect of an acceptance |
| `TenancyIndex.dfy`, `TenancyAgreement.dfy` | when the membership index is exact, and on top of it when the organization tuples are |
| `TenancyKeys.dfy` | the same agreement while names are free of bars, and a run in which joined tuple keys collide |
| `TenancyLifecycle.dfy` | members of revoked organizations and invitations past their expiry: which calls break the expected rule, and every run without them |
| `TenancyEffects.dfy`, `TenancyLaws.dfy` | what each call does, seen from outside, and over all calls which one moves the state of an invitation or a membership |
| `TenancyStore.dfy` | the tenancy methods, field by field, proved against the step functions |
| `IdentityModel.dfy`, `IdentityStore.dfy` | users, credentials, their stored secrets and sessions, in the same two layers |
| `IdentityEffects.dfy` | what each call does, seen from outside, and over all calls which one ends a session or moves a credential |
| `IdentityLockout.dfy` | how long a suspension, revocation or rotation keeps a user or credential locked out, and the stored secrets |
| `Pats.dfy` | personal access tokens, beside the users, with the interleaving of the two locked sections of a verification |
| `Cbor.dfy`, `CborRfc.dfy` | the CBOR decoder against the encodings RFC 8949 allows, and when it returns the value the RFC gives them |
| `Base32.dfy`, `Phc.dfy`, `PhcGrammar.dfy` | the other codecs, each against an independent description of its format |
| `Common.dfy` | results, options and a few facts about sequences and sets |

Evaluation is a function, as in the source. For every state-changing call there are two kinds of theorems: its effect on its own
rows with everything else unchanged, errors included, and laws about all calls and all runs. The stores are classes whose fields are the source's maps;
each method states its whole new state through a step function, and the theorems are about those
functions over all states, all calls and all runs. The tenancy and identity classes carry their
invariant through every public method.

## How calls are modelled

- Every call is one step under the store's lock; `VerifyPatToken` is two steps, between which anything may happen.
- Generated ids are fresh and issued tokens have distinct hashes; tokens appear only as their hashes.
- Each clock reading is an argument, so a call that reads the clock several times has several arguments.
  Nothing is assumed of the clock, except a clock that never goes back in the share-token runs.
- Ranging over a Go map picks elements in any order. In a search, each enumeration may use an order of
  its own, even for the same set.
- Both tuple maps, of the tuple store and of the tenancy store, keep the joined string keys of the source, and the theorems
  say exactly when they mislead. The membership index is keyed by a pair: its first field is a generated organization id
  without a bar, so the joined key determines both (`Keys.JoinInjective`). The identifier index is keyed by a pair too, its first
  field being one of three fixed type names.

## Where code and intent differ

Where a property fails there is a lemma with a concrete run or input, beside the exact condition under which it holds.

- Joined keys mislead. A subject without tuples is allowed when another subject's id continues its own after a bar
  (`TupleStore.BarInSubjectIdGrants`; exactly when: `FindsOwnOnlyIff`, `NoTuplesNoGrantIff`, `PlainSubjectsFindOwnIff`), and a
  tuple answers for another object when the queried object type contains a bar (`BarInQueriedTypeMisleads`; `OwnFrameIff`).
- Suspending a membership that is already suspended drops the index entry of whatever row its user holds
  by then (`packages/tenancy/inmem.go:453-457`): `TenancyIndex.SuspendTwiceBreaksAgreement`, `StepIndexIff`.
- An invitation can bring a tuple for an organization role its user does not hold, and an acceptance can overwrite another
  member's role tuple when a user id contains bars: `TenancyKeys.PreTupleBreaksAgreement`, `AcceptanceOverwritesRoleTuple`;
  exactly when: `TenancyAgreement.StepTuplesIff`.
- Members can be added, admitted and reinstated in a revoked organization: `TenancyLifecycle.RevokedOrgGainsMember`,
  `StepRevokedEmptyIff`.
- An invitation past its expiry that no call has looked at can still be declined or withdrawn, and an acceptance is stamped
  with a later clock reading than the one it is checked with: `TenancyLifecycle.ExpiredInvitationDeclined`, `StepInTimeIff`.
- Revoking a suspended credential whose identifier another credential holds by then clears that credential's
  index entry (`packages/identity/inmem.go:556-558`): `IdentityModel.RevokeSupersededLosesIndex`, `StepExactIff`.
- A suspended user can be given a session, and a revoked one a credential and a session:
  `IdentityLockout.RevokedUserSignsIn`, `StepLiveUsersIff`, `StepOwnersStandingIff`.
- A CBOR integer argument of 2^63 or more is returned as another number: `CborRfc.LargestIntegersWrap`, `DecodesToMeaningIff`.
- A verification of a personal access token succeeds although the token is revoked, or expires, between its two sections:
  `Pats.SuccessAfterRevocation`, `SuccessDespiteMiddle`; `SuccessIsRecent` shows that a use of a revoked token is not stored.
- Personal access tokens outlive the suspension and revocation of their user: `Pats.RevokedUsersTokenVerifies`,
  `StepTokensActiveIff`.
- The limit on a token's name is announced in characters and counted in bytes; the model counts bytes.
- The slug index, commented as holding active organizations only, also holds suspended ones:
  `TenancyLifecycle.SuspendedOrgKeepsSlug`; `TenancyInvariants.AlwaysOwned` has it hold exactly the slugs of organizations that
  are not revoked.

## Model

| member | source | states |
|---|---|---|
| Rewrite.GrantedIsLeastFixedPoint | packages/authz/rewrite_rules.go:34-58 | "Some chain of rule edges, of any length, leads to a frame with a direct tuple" is closed under the rules and lies in every closed set of grants |
| Rewrite.EvaluateSound | packages/authz/rewrite_rules.go:136-209 | An allowed verdict names the tuple of a direct hit on a frame reachable from the query |
| Rewrite.EvaluateComplete | packages/authz/rewrite_rules.go:146-207 | An error-free denial means that no chain of rule edges, cyclic rules included, leads to a direct tuple: cutting repeated frames loses no grant |
| Rewrite.VerdictIsFixedPoint | packages/authz/rewrite_rules.go:136-209 | Whenever no limit is hit, the verdict is exactly membership in the least fixed point |
| Rewrite.EvaluateExact | packages/authz/rewrite_rules.go:163-201 | With at most `maxDepth` distinct rule-bearing frames reachable and fan-outs within bound, no limit is ever hit and the verdict is the least fixed point |
| Rewrite.DepthBoundIsTight | packages/authz/rewrite_rules.go:163-173 | For every positive bound d there is a rule set with d + 1 rule-bearing frames on which the search gives up, so the condition of `EvaluateExact` cannot be relaxed |
| Rewrite.OptionsSuffice | packages/authz/rewrite_rules.go:97-118 | Zero options allow 8 rule-bearing frames and 1024 subjects per enumeration, other options themselves; within that no limit is hit and the verdict is the least fixed point |
| Rewrite.FanOutIsTight | packages/authz/rewrite_rules.go:186-205 | One subject more than allowed, at a frame without a direct tuple whose rule starts with that enumeration, is a limit error |
| Rewrite.DefaultDepthIsEight | packages/authz/rewrite_rules.go:97-111 | With both options zero nine chained rule-bearing frames are a limit error |
| Rewrite.VerdictMonotone | packages/authz/rewrite_rules.go:146-207 | Adding tuples, related subjects or rule nodes never turns an allowed verdict into an error-free denial |
| Rewrite.VerdictIndependentOfOrder | packages/authz/rewrite_rules.go:56-58 | Two error-free evaluations that differ only in the order of rule nodes or of enumerated subjects, or in their bounds, agree |
| Rewrite.EvaluateWork | packages/authz/rewrite_rules.go:146-207 | If every rule has at most b children, one evaluation makes at most 1 + b + ... + b^maxDepth direct lookups |
| Keys.NaturalKeyInjective | packages/authz/inmem.go:64-66 | Joined keys determine all five fields when only the last may contain a bar |
| Keys.KeyFixesSubject | packages/authz/inmem.go:64-66 | Two equal keys of bar-free subjects have the same subject, whatever the other fields contain |
| Keys.KeyOfSubjectIff | packages/authz/inmem.go:64-66 | A string is a key of a subject at some relation and object exactly when it starts with the subject and two more bars follow |
| Keys.BarInSubjectIdCollides | packages/authz/inmem.go:64-81 | Two well-formed tuples of different subjects, with a bar in an id, share one key |
| Keys.NamePatterns | packages/authz/patterns.go:7-14 | Relation names are 2 to 32 lower-case letters and underscores, type prefixes 2 to 6 lower-case letters |
| TupleStore.FindsOwnOnlyIff | packages/authz/inmem.go:64-66 | For every store and subject: exact-match lookups find only the subject's own tuples if and only if no other subject's key starts with it and has two more bars |
| TupleStore.ShadowsPlainSubject | packages/authz/inmem.go:64-81 | For a bar-free subject those are exactly the tuples of its type whose subject id continues its own after a bar |
| TupleStore.PlainSubjectsFindOwnIff | packages/authz/inmem.go:64-81 | All bar-free subjects find only their own tuples if and only if every stored subject id is bar-free |
| TupleStore.OwnFrameIff | packages/authz/inmem.go:64-66 | A subject's tuple found at a frame is stored on that frame if and only if the frame's relation and object type are bar-free |
| TupleStore.BarInSubjectIdGrants | packages/authz/inmem.go:68-167 | One create, and a user without any tuple is allowed, under every rule set and bound |
| TupleStore.BarInQueriedTypeMisleads | packages/authz/inmem.go:68-167 | One create, and the subject is allowed on an object its tuple does not name |
| TupleStore.AllowedNamesStoredTuple | packages/authz/inmem.go:124-167 | An allowed `Check` names an existing tuple whose key is the subject's at a reachable frame; the tuple is the subject's own unless the subject is shadowed, and for a query and rules without bars it is stored on that very frame |
| TupleStore.CheckExact | packages/authz/inmem.go:124-167 | For such queries of unshadowed subjects, an error-free verdict is allowed exactly when some tuple of the subject is stored on a frame the rules lead to |
| TupleStore.CheckBounds | packages/authz/inmem.go:124-167 | The same bounds for a check of the store, stated on its rules and stored tuples |
| TupleStore.DeniedRulesOutTuples | packages/authz/inmem.go:124-167 | After an error-free denial no stored tuple of the subject lies on any reachable frame |
| TupleStore.NoTuplesNoGrantIff | packages/authz/inmem.go:124-167 | A subject without tuples is allowed nothing, whatever the rules, bounds and order, if and only if no tuple shadows it |
| TupleStore.RunKeepsInverse | packages/authz/inmem.go:68-122 | Over any run of creates, deletes and cascades the tuple map and the natural-key map stay mutually inverse and stored tuples well formed |
| TupleStore.CascadeLastsUntilNextGrant | packages/authz/inmem.go:110-167 | After a cascade and any run that creates nothing for the subject, no `Check` under any rules, bounds or order allows it, if and only if no tuple of somebody else shadows it |
| TupleStore.CheckIsDeterministic | packages/authz/inmem.go:146-156 | Two checks of one store under different map orders agree unless one of them hits a limit |
| TupleStore.CreateNeverDenies | packages/authz/inmem.go:68-96 | Creating a tuple never turns an allowed check into an error-free denial |
| TupleStore.InMemoryTupleStore.CreateTuple | packages/authz/inmem.go:68-96 | Malformed names and the existing tuple of a taken key are the only errors and change nothing; otherwise the tuple, field by field, is in both maps and nothing else changes; the maps stay inverse |
| TupleStore.InMemoryTupleStore.DeleteTuple | packages/authz/inmem.go:98-108 | The tuple and its key are gone and nothing else, or it is reported missing; the maps stay inverse |
| TupleStore.InMemoryTupleStore.CascadeRevokeSubject | packages/authz/inmem.go:110-122 | Exactly the tuples of other subjects remain, unchanged and with exactly their keys, in any map order, and the result counts the others |
| TupleStore.InMemoryTupleStore.Check | packages/authz/inmem.go:124-167 | The search's verdict; an allowed result names a stored tuple with the subject's key at a reachable frame, its own tuple when unshadowed and on a reachable frame for queries without bars; a denial leaves no tuple of the subject on a reachable frame; zero options mean 8 frames and 1024 subjects, within which there is no error and beyond which at the queried frame there is one |
| Paging.PaginateTuples | packages/authz/inmem.go:234-265 | The in-place sort yields a (CreatedAt, ID)-sorted permutation and the page is cut from it |
| Paging.CutPage | packages/authz/inmem.go:247-265 | The page after the cursor row, or from the start when the cursor is unknown, with a next cursor exactly when rows remain |
| Paging.PageExact | packages/authz/inmem.go:247-265 | A page holds the rows after the cursor's row, or the first rows when no row has that id, up to the limit, and names its last row exactly when rows remain |
| Paging.GatherSubject | packages/authz/inmem.go:198-208 | Collects the subject's tuples, each once, in any map order |
| Paging.ListTuplesBySubject | packages/authz/inmem.go:198-212 | The page is cut from the one sorted listing of the subject's tuples; a limit that is not positive means 50 |
| Paging.ListingUnique | packages/authz/inmem.go:234-245 | A set of tuples has one listing, so pages do not depend on map order |
| Paging.LaterRowsExtend | packages/authz/inmem.go:234-245 | Adding rows with later keys leaves the listing of the old rows as a prefix |
| Paging.CreateGrowsAtTheEnd | packages/authz/inmem.go:68-96 | Creating a tuple with a later key grows every subject's listing only at its end |
| Paging.CursorWalk | packages/authz/inmem.go:234-265 | Following cursors from nil to nil, with rows added at the end between calls, returns sorted distinct rows that include every row present at the start |
| Paging.WalkEnds | packages/authz/inmem.go:234-265 | A walk of k calls over at most k * limit rows has met a nil cursor |
| Shares.SingleUseVerifiesOnce | packages/authz/inmem.go:332-363 | Over any run a single-use share verifies at most once |
| Shares.FailedTokensNeverComeBack | packages/authz/inmem.go:332-363 | Once a token fails as revoked, consumed or expired, no later verification of it succeeds |
| Shares.SuccessIsTimely | packages/authz/inmem.go:289-363 | In every reachable state a success falls before ExpiresAt and within 365 days of creation, and a share that is not single-use has no consumption time |
| Shares.SuccessNamesTheShare | packages/authz/inmem.go:289-363 | From its creation on, over any run, a share keeps its creation data, and every success of its token names the created id, object type, object id and relation |
| Shares.OutcomeOfVerification | packages/authz/inmem.go:332-363 | In every reachable state the outcome is settled by the token's share: unknown, revoked, used up, expired in this order, and a success otherwise |
| Shares.InMemoryShareStore.CreateShare | packages/authz/inmem.go:289-320 | Succeeds exactly for a relation name and a lifetime of 1 to 31536000 seconds; the share holds the input field by field and both token maps name it; invariant kept |
| Shares.InMemoryShareStore.VerifyShareToken | packages/authz/inmem.go:332-363 | Every error exactly when it applies; a success names id, object type, object id and relation of the stored share, and consumes exactly a single-use share, changing nothing else; invariant kept |
| Shares.InMemoryShareStore.RevokeShare | packages/authz/inmem.go:365-379 | A known share has its first revocation time afterwards and is otherwise unchanged, and so is everything else; invariant kept |
| TenancyInvariants.StepKeepsInv | packages/tenancy/inmem.go:83-800 | Every call keeps the whole invariant: owners, sound index, replacement links, slug index, invitation rows |
| TenancyInvariants.RunKeepsInv | packages/tenancy/inmem.go:83-800 | The same over any run from any state satisfying it |
| TenancyInvariants.AlwaysOwned | packages/tenancy/inmem.go:83-800 | In every reachable state each organization that is not revoked has an active owner, every index entry names an active row of that organization and user, links go to revoked rows revoked at the successor's creation and are not shared, slugs are exactly indexed, and TerminalAt is set iff an invitation is not pending |
| TenancyInvariants.TransferKeepsOwnerCount | packages/tenancy/inmem.go:557-582 | A transfer to a non-owner leaves the number of active owners unchanged, the new row in and the old owner's row out |
| TenancyInvariants.SelfLeaveKeepsOwnerCount | packages/tenancy/inmem.go:467-500 | When the sole owner leaves to a successor, the successor's new row is the only active owner |
| TenancyHistory.SoleOwnerCannotJustLeave | packages/tenancy/inmem.go:467-500 | A sole owner's leave succeeds iff it names a user whose indexed membership is another active row of the organization |
| TenancyHistory.AdminRemovalIsAuthorized | packages/tenancy/inmem.go:524-555 | A removal is made by an active admin or owner of the organization, of an owner only by an owner, never of the last owner, and is recorded on the row |
| TenancyHistory.RunFreezes | packages/tenancy/inmem.go:83-800 | Over any run a revoked membership and a non-pending invitation never change again, and no replacement link or pre-tuple list changes |
| TenancyHistory.ChainsAreFinite | packages/tenancy/inmem.go:504-522 | In every reachable state replacement chains are acyclic and shorter than the number of rows |
| TenancyHistory.ChainIsOneMembership | packages/tenancy/inmem.go:504-522 | Every earlier row of a chain is revoked and of the same organization and user |
| TenancyHistory.AcceptedAtMostOnce | packages/tenancy/inmem.go:679-761 | Over any run an invitation is accepted at most once |
| TenancyHistory.AcceptanceEffect | packages/tenancy/inmem.go:679-761 | An acceptance finds the invitation pending and unexpired; it adds exactly one membership with its index entry, writes exactly the role tuple and then the pre-tuples in order under their joined keys, so that each key holds the last tuple written to it and no other key changes, leaves the invitation accepted, and changes no other row, entry or organization |
| TenancyEffects.CreateOrgErrors | packages/tenancy/inmem.go:83-119 | Creation fails exactly on a malformed slug or one of an organization that is not revoked, and then changes nothing |
| TenancyEffects.CreateOrgEffect | packages/tenancy/inmem.go:83-119 | Otherwise there is an active organization under its slug, its creator an indexed owner with the owner tuple, and nothing else changes |
| TenancyEffects.UpdateOrgErrors | packages/tenancy/inmem.go:131-168 | An update fails exactly on an unknown or revoked organization, or a malformed or foreign slug |
| TenancyEffects.UpdateOrgEffect | packages/tenancy/inmem.go:131-168 | Otherwise name and slug are cleared, set or kept, clearing winning, the slug index follows, and nothing else changes |
| TenancyEffects.TransitionOrgErrors | packages/tenancy/inmem.go:180-212 | Exactly an unknown or revoked organization, and the reinstatement of an active one, are errors |
| TenancyEffects.OrgStatusEffect | packages/tenancy/inmem.go:180-212 | Suspension and reinstatement change only the organization's status and time |
| TenancyEffects.OrgEndEffect | packages/tenancy/inmem.go:180-212 | Revocation also ends exactly its active memberships, removes exactly their entries and tuple keys, and frees exactly its slug |
| TenancyEffects.AddMemberEffect | packages/tenancy/inmem.go:273-297 | Exactly an unknown organization and an active membership are errors; otherwise one row, its entry and its tuple are added and nothing else changes |
| TenancyEffects.SuspendEffect | packages/tenancy/inmem.go:425-465 | Errors exactly for an unknown, a revoked and a sole owner's row; otherwise the row is suspended, its entry and tuple key are gone, and nothing else changes |
| TenancyEffects.ReinstateEffect | packages/tenancy/inmem.go:425-465 | Succeeds exactly for a suspended row whose user has no active one; the row is active with entry and tuple, and nothing else changes |
| TenancyEffects.SelfLeaveEffect | packages/tenancy/inmem.go:467-500 | An active row that is not the sole owner's always leaves: revoked by its own user, entry and tuple key gone, nothing else changed |
| TenancyEffects.HandOverEffect | packages/tenancy/inmem.go:467-500 | A sole owner leaves exactly to another indexed member: that row is succeeded by an owner row, then the leaver's row is revoked with its entry and tuple key gone |
| TenancyEffects.SuccessorStays | packages/tenancy/inmem.go:467-500 | After it the successor's row, entry and owner tuple are there when the users differ |
| TenancyEffects.AdminRemoveEffect | packages/tenancy/inmem.go:524-555 | Every error exactly when it applies, by the remover's role; otherwise the row is revoked by the remover, entry and tuple key gone, nothing else changed |
| TenancyEffects.ChangeRoleEffect | packages/tenancy/inmem.go:365-406 | Every error exactly when it applies, nothing for the same role; otherwise the row is succeeded by one in the new role and nothing else changes |
| TenancyEffects.TransferEffect | packages/tenancy/inmem.go:557-582 | Every error exactly when it applies; otherwise the receiving row is succeeded by an owner row and then the giving row by a member row |
| TenancyEffects.CreateInvitationEffect | packages/tenancy/inmem.go:586-605 | Known organizations get the pending invitation, field by field, and nothing else changes |
| TenancyEffects.GetInvitationEffect | packages/tenancy/inmem.go:607-622 | A look expires a pending invitation at or after its expiry and otherwise changes nothing |
| TenancyEffects.AcceptErrors | packages/tenancy/inmem.go:679-727 | Every error of an acceptance exactly when it applies, in order; a late attempt expires the invitation, the other errors change nothing |
| TenancyEffects.DeclineEffect | packages/tenancy/inmem.go:763-782 | Exactly a pending invitation is declined, with time and user, and nothing else changes |
| TenancyEffects.WithdrawEffect | packages/tenancy/inmem.go:784-800 | Exactly a pending invitation is withdrawn, with time and admin, and nothing else changes |
| TenancyLaws.InvitationLaw | packages/tenancy/inmem.go:586-800 | Over every call: an invitation keeps its offer, a terminal one never changes, and a pending one becomes accepted, declined, revoked or expired exactly by the call that does so |
| TenancyLaws.RowLaw | packages/tenancy/inmem.go:83-800 | Over every call: a membership row keeps user, organization, role and origin, and is suspended, reinstated or ended exactly by the named calls under their guards |
| TenancyIndex.StepIndexIff | packages/tenancy/inmem.go:453-457 | A call keeps the index exactly the active rows if and only if it does not suspend a suspended row whose user holds another active one; pre-tuples play no part |
| TenancyIndex.IndexAlwaysExact | packages/tenancy/inmem.go:83-800 | Over every run without such suspensions an index entry exists exactly for each active row, so a user has at most one in an organization |
| TenancyIndex.SuspendTwiceBreaksAgreement | packages/tenancy/inmem.go:453-457 | A concrete run of the code as it is that ends with two active rows of one user |
| TenancyAgreement.StepTuplesIff | packages/tenancy/inmem.go:75-761 | In agreement, a call keeps the organization tuples exactly the role tuples of active rows if and only if, in the joined-key map before the call, the tuples it writes displace no other organization tuple and bring no new one beside its role tuples, and a suspended row it suspends again has no organization tuple at its key |
| TenancyAgreement.StepAgreesIff | packages/tenancy/inmem.go:425-761 | A call keeps index and tuples both exact if and only if it meets both conditions |
| TenancyAgreement.AlwaysAgrees | packages/tenancy/inmem.go:83-800 | Over every run of such calls the index is exactly the active rows and the organization tuples exactly their role tuples |
| TenancyKeys.PlainKeepsIff | packages/tenancy/inmem.go:75-77 | With bar-free user ids, roles and pre-tuple relations and types keys determine tuples, and that condition is just: no suspended row is suspended again while its role tuple is held, and no acceptance brings an organization tuple that is not held |
| TenancyKeys.PlainRunsAgree | packages/tenancy/inmem.go:83-800 | Over every run with such names that keeps this condition and suspends no superseded row, memberships, index and tuples agree |
| TenancyKeys.PreTupleBreaksAgreement | packages/tenancy/inmem.go:742-752 | A concrete run that leaves an owner tuple for a mere member, the index still exact |
| TenancyKeys.AcceptanceOverwritesRoleTuple | packages/tenancy/inmem.go:742-752 | A concrete run in which one user's acceptance overwrites the role tuple of another active member, whose id contains bars |
| TenancyLifecycle.StepRevokedEmptyIff | packages/tenancy/inmem.go:180-761 | A call keeps revoked organizations without active members if and only if it is not an addition, acceptance or reinstatement whose guards hold in a revoked organization |
| TenancyLifecycle.RevokedOrgsStayEmpty | packages/tenancy/inmem.go:83-800 | Over every run without such calls no revoked organization has an active member |
| TenancyLifecycle.RevokedOrgGainsMember | packages/tenancy/inmem.go:273-297 | Concrete runs in which each of the three calls leaves an active member in a revoked organization |
| TenancyLifecycle.StepInTimeIff | packages/tenancy/inmem.go:679-800 | A call keeps every answered invitation answered before its expiry if and only if it does not accept, decline or withdraw a pending one with a stamp past its expiry |
| TenancyLifecycle.RunInTime | packages/tenancy/inmem.go:586-800 | Over every run without such calls all answers fall before the expiry |
| TenancyLifecycle.ExpiredInvitationDeclined | packages/tenancy/inmem.go:763-782 | A concrete run in which an expired invitation is declined |
| TenancyLifecycle.SuspendedOrgKeepsSlug | packages/tenancy/inmem.go:49-54 | A concrete run after which a suspended organization still holds its slug, and any creation with that slug is refused |
| TenancyStore.InMemoryTenancyStore.CreateOrg | packages/tenancy/inmem.go:83-119 | Slug errors, and the organization with its owner membership, index entries and tuple; invariant kept |
| TenancyStore.InMemoryTenancyStore.UpdateOrg | packages/tenancy/inmem.go:131-168 | The three-way name and slug update and the move of the slug entry; invariant kept |
| TenancyStore.InMemoryTenancyStore.TransitionOrg | packages/tenancy/inmem.go:180-212 | Suspend, reinstate and revoke with the cascade and the freed slug; invariant kept |
| TenancyStore.InMemoryTenancyStore.CascadeOrg | packages/tenancy/inmem.go:195-206 | Retires exactly the organization's active memberships, in any map order |
| TenancyStore.InMemoryTenancyStore.AddMember | packages/tenancy/inmem.go:273-297 | Errors and the enrolled row with index entry and tuple; invariant kept |
| TenancyStore.InMemoryTenancyStore.ChangeRole | packages/tenancy/inmem.go:365-406 | The errors, the sole-owner guard, the unchanged role, and revoke-and-re-add; invariant kept |
| TenancyStore.InMemoryTenancyStore.CountActiveOwners | packages/tenancy/inmem.go:408-416 | The number of active owner rows of the organization, in any map order |
| TenancyStore.InMemoryTenancyStore.ChangeRoleAtomicLocked | packages/tenancy/inmem.go:504-522 | The old row revoked, its successor linked and enrolled, index and tuples moved |
| TenancyStore.InMemoryTenancyStore.SuspendMembership | packages/tenancy/inmem.go:425-465 | Errors, sole-owner guard, dropped index entry and tuple, also when the row is suspended already; invariant kept |
| TenancyStore.InMemoryTenancyStore.ReinstateMembership | packages/tenancy/inmem.go:425-465 | Errors, the duplicate check, and the restored index entry and tuple; invariant kept |
| TenancyStore.InMemoryTenancyStore.SelfLeave | packages/tenancy/inmem.go:467-500 | The transfer branch of a sole owner and the retired row; invariant kept |
| TenancyStore.InMemoryTenancyStore.RetireLocked | packages/tenancy/inmem.go:491-499 | The shared end of a leave and a removal: the row revoked with its remover, index entry and tuple key dropped |
| TenancyStore.InMemoryTenancyStore.AdminRemove | packages/tenancy/inmem.go:524-555 | Rank checks, sole-owner guard and the retired row; invariant kept |
| TenancyStore.InMemoryTenancyStore.TransferOwnership | packages/tenancy/inmem.go:557-582 | Errors, the promoted and demoted successor rows, and which two rows are returned; invariant kept |
| TenancyStore.InMemoryTenancyStore.CreateInvitation | packages/tenancy/inmem.go:586-605 | The stored pending invitation; invariant kept |
| TenancyStore.InMemoryTenancyStore.GetInvitation | packages/tenancy/inmem.go:607-622 | The invitation, with lazy expiry of a pending one; invariant kept |
| TenancyStore.InMemoryTenancyStore.AcceptInvitation | packages/tenancy/inmem.go:679-761 | Lazy expiry, identifier binding, the duplicate check, the membership and the materialized tuples in order; invariant kept |
| TenancyStore.InMemoryTenancyStore.MaterializePreTuples | packages/tenancy/inmem.go:746-752 | Writes one tuple for each pre-tuple, in order, under its joined key, and returns them after those given |
| TenancyStore.InMemoryTenancyStore.DeclineInvitation | packages/tenancy/inmem.go:763-782 | Only a pending invitation is declined, with its terminal time and actor; invariant kept |
| TenancyStore.InMemoryTenancyStore.RevokeInvitation | packages/tenancy/inmem.go:784-800 | Only a pending invitation is revoked, with its terminal time and actor; invariant kept |
| IdentityModel.StepKeepsInv | packages/identity/inmem.go:120-771 | Every user, credential and session call keeps the invariant of live credentials, exact token maps and sound identifier index |
| IdentityModel.RunKeepsInv | packages/identity/inmem.go:120-771 | The same over any run |
| IdentityModel.VerifiedMeansLive | packages/identity/inmem.go:694-710 | In every reachable state a token verifies iff it is the token of an unexpired live session; that session's credential is active and its user's own, and the revoked branch is never taken |
| IdentityLockout.UserStaysLockedOut | packages/identity/inmem.go:253-300 | From a user's suspension or revocation until a session is next created for that user, over any run, no session token of that user verifies |
| IdentityLockout.CredentialStaysLockedOut | packages/identity/inmem.go:437-567 | From a credential's suspension, revocation or rotation until a session is next created on it, over any run, no session token of it verifies |
| IdentityLockout.RevokedCredentialIsGone | packages/identity/inmem.go:437-567 | A revoked or rotated credential never changes again and no session token of it verifies, over any run at all |
| IdentityLockout.StepLiveUsersIff | packages/identity/inmem.go:599-633 | A call gives a suspended or revoked user a live session if and only if it is a session creation whose guards hold for such a user |
| IdentityLockout.TokensOfActiveUsersOnly | packages/identity/inmem.go:694-710 | Over every run without such calls a session token verifies only for an active user |
| IdentityLockout.StepOwnersStandingIff | packages/identity/inmem.go:318-567 | A call gives a revoked user an active credential if and only if it creates or reinstates one for such a user |
| IdentityLockout.RevokedUsersStayOut | packages/identity/inmem.go:120-771 | Over every run without such calls revoked users have no active credential and no session token that verifies |
| IdentityLockout.RevokedUserSignsIn | packages/identity/inmem.go:318-633 | A concrete run after which a session token verifies for a revoked user |
| IdentityLockout.RunKeepsSecrets | packages/identity/inmem.go:318-521 | Over any run exactly the password credentials have a stored hash and exactly the passkeys a stored key, and none is ever overwritten |
| IdentityLockout.PasswordLookupHasHash | packages/identity/inmem.go:569-580 | In every reachable state a password credential found by its identifier is active and has a stored hash |
| IdentityModel.RefreshMovesSession | packages/identity/inmem.go:712-751 | A refresh carries user, credential and lifetime to the new token, and the old token is unknown afterwards |
| IdentityModel.TokensNeverComeBack | packages/identity/inmem.go:599-771 | An unknown token stays invalid over any run that does not issue it |
| IdentityModel.StepExactIff | packages/identity/inmem.go:533-567 | A call keeps the identifier index exact if and only if it does not revoke a suspended credential whose identifier is held by another active one |
| IdentityModel.IndexAlwaysExact | packages/identity/inmem.go:120-771 | Over every run without such revocations an index entry exists exactly for each active credential, so no two share a type and identifier |
| IdentityModel.RevokeSupersededLosesIndex | packages/identity/inmem.go:556-558 | A concrete run after which an active credential is not found under its identifier |
| IdentityEffects.CreateUserEffect | packages/identity/inmem.go:120-137 | One active user is added and nothing else changes |
| IdentityEffects.UpdateUserEffect | packages/identity/inmem.go:149-167 | Fails exactly for an unknown or revoked user; otherwise the name is cleared, set or kept and nothing else changes |
| IdentityEffects.TransitionUserErrors | packages/identity/inmem.go:253-286 | Fails exactly for an unknown or revoked user; the status a user has already changes nothing |
| IdentityEffects.ReinstateUserEffect | packages/identity/inmem.go:253-286 | A reinstatement changes only status and time of a suspended user |
| IdentityEffects.SuspendUserEffect | packages/identity/inmem.go:253-300 | A suspension also ends exactly the user's live sessions with their tokens |
| IdentityEffects.RevokeUserEffect | packages/identity/inmem.go:253-300 | A revocation ends exactly the user's live sessions and active credentials, with their tokens and index entries |
| IdentityEffects.CreateCredentialEffect | packages/identity/inmem.go:318-396 | Every error exactly when it applies; otherwise the credential, field by field, its entry and its secret are added and nothing else changes |
| IdentityEffects.RotateErrors | packages/identity/inmem.go:437-521 | Every error exactly when it applies, changing nothing |
| IdentityEffects.RotateEffect | packages/identity/inmem.go:437-521 | Otherwise the credential is revoked, its successor takes user, identifier and entry with its own secret, and exactly the old one's live sessions end |
| IdentityEffects.TransitionCredentialErrors | packages/identity/inmem.go:533-567 | Every error exactly when it applies, and the status a credential has already changes nothing |
| IdentityEffects.TransitionCredentialEffect | packages/identity/inmem.go:533-567 | Otherwise only status, time and the identifier's entry change, and suspension and revocation end exactly its live sessions |
| IdentityEffects.CreateSessionEffect | packages/identity/inmem.go:599-633 | Every error exactly when it applies; otherwise one session of the given seconds and its token are added and nothing else changes |
| IdentityEffects.RefreshErrors | packages/identity/inmem.go:712-751 | Fails exactly for an unknown, ended or expired session |
| IdentityEffects.RefreshEffect | packages/identity/inmem.go:712-751 | Otherwise exactly that session ends and one of equal user, credential and length is added with its token |
| IdentityEffects.RevokeSessionEffect | packages/identity/inmem.go:753-771 | A live session ends with its token and nothing else changes; a second revocation changes nothing |
| IdentityEffects.SignedOut | packages/identity/inmem.go:694-771 | After a sign-out the session's token is invalid over any run that does not issue it again, and every other session and token is as before |
| IdentityEffects.RevokedSessionsFrozen | packages/identity/inmem.go:599-771 | Over any run an ended session never changes again |
| IdentityEffects.SessionLaw | packages/identity/inmem.go:120-771 | Over every call: a live session ends exactly by a sign-out, a timely refresh, the end or rotation of its credential, or the suspension or revocation of its user, and nothing else about it changes |
| IdentityEffects.CredentialLaw | packages/identity/inmem.go:120-771 | Over every call: a credential is suspended, reinstated or ended exactly by the named calls under their guards, and nothing else about it changes |
| IdentityStore.InMemoryIdentityStore.CreateUser | packages/identity/inmem.go:120-137 | The stored active user; invariant kept |
| IdentityStore.InMemoryIdentityStore.UpdateUser | packages/identity/inmem.go:149-167 | Errors and the three-way change of the display name; invariant kept |
| IdentityStore.InMemoryIdentityStore.TransitionUser | packages/identity/inmem.go:253-286 | Errors, idempotence and both cascades; invariant kept |
| IdentityStore.InMemoryIdentityStore.EndSession | packages/identity/inmem.go:288-314 | One session revoked and both its token entries gone |
| IdentityStore.InMemoryIdentityStore.CascadeRevokeSessionsForUser | packages/identity/inmem.go:288-300 | Ends exactly the user's live sessions, in any map order |
| IdentityStore.InMemoryIdentityStore.CascadeRevokeSessionsForCredential | packages/identity/inmem.go:302-314 | Ends exactly the credential's live sessions, in any map order |
| IdentityStore.InMemoryIdentityStore.CascadeRevokeCredentials | packages/identity/inmem.go:274-284 | Revokes exactly the user's active credentials and drops their index entries, in any map order |
| IdentityStore.InMemoryIdentityStore.StoreSecret | packages/identity/inmem.go:340-370 | Files the hash or public key under the credential's id and nothing else |
| IdentityStore.InMemoryIdentityStore.CreateCredential | packages/identity/inmem.go:318-396 | Errors and the stored credential of any of the three variants with its index entry and its password hash or public key; invariant kept |
| IdentityStore.InMemoryIdentityStore.Rotate | packages/identity/inmem.go:437-521 | Errors, the linked successor with its secret, the moved index entry and the ended sessions; invariant kept |
| IdentityStore.InMemoryIdentityStore.TransitionCredential | packages/identity/inmem.go:533-567 | Errors, idempotence, index and session effects of suspend, reinstate and revoke; invariant kept |
| IdentityStore.InMemoryIdentityStore.CreateSession | packages/identity/inmem.go:599-633 | Every error case, and the session with both token entries; invariant kept |
| IdentityStore.InMemoryIdentityStore.VerifySessionToken | packages/identity/inmem.go:694-710 | Succeeds iff the token is known and its session unexpired; then the session is live on an active credential of its own user |
| IdentityStore.InMemoryIdentityStore.RefreshSession | packages/identity/inmem.go:712-751 | Errors, the ended session and its successor of equal lifetime; invariant kept |
| IdentityStore.InMemoryIdentityStore.RevokeSession | packages/identity/inmem.go:753-771 | Ends a live session, leaves an ended one unchanged; invariant kept |
| Pats.RevokedRecordsFrozen | packages/identity/inmem.go:1293-1376 | Over any interleaving a revoked record never changes |
| Pats.StoredUsesApart | packages/identity/inmem.go:1337-1358 | Over any interleaving the stored uses of a token are at least the coalescing window apart |
| Pats.SuccessIsRecent | packages/identity/inmem.go:1337-1358 | After a success on an unrevoked token the stored use is less than one window old; after one on a token revoked meanwhile nothing was stored |
| Pats.RevokedNeverBeginsAgain | packages/identity/inmem.go:1318-1336 | Once a token is revoked, every verification that begins later fails as revoked |
| Pats.SuccessDespiteMiddle | packages/identity/inmem.go:1318-1358 | A verification with the right secret succeeds whatever calls of other threads come between its sections; the token is revoked by then if and only if one of them revoked it, and otherwise expired if and only if its expiry has passed |
| Pats.SuccessAfterRevocation | packages/identity/inmem.go:1318-1358 | A concrete run in which a verification succeeds after a revocation between its sections, and one after an expiry |
| Pats.StepTokensActiveIff | packages/identity/inmem.go:1186-1376 | An event leaves a usable token with a user who is not active if and only if it makes one for such a user or suspends or revokes the user of one |
| Pats.VerifiedForActiveUsers | packages/identity/inmem.go:1318-1336 | Over every interleaving without such events a verification begins only for a token of an active user |
| Pats.RevokedUsersTokenVerifies | packages/identity/inmem.go:253-286 | A concrete run in which the token of a revoked user still verifies |
| Pats.InMemoryPatStore.CreatePat | packages/identity/inmem.go:1186-1228 | Succeeds exactly for a stored user, of whatever status, a name of 1 to 120 bytes and an expiry within a year; the new token is active and unused, can be looked up until it expires, and no other record changes; invariant kept |
| Pats.InMemoryPatStore.BeginVerify | packages/identity/inmem.go:1318-1336 | Succeeds exactly for a known token that is neither revoked nor expired, with its stored user and scope, and says which of the three it is otherwise |
| Pats.InMemoryPatStore.FinishVerify | packages/identity/inmem.go:1337-1358 | A success leaves a revoked record as it is and any other with a stored use less than a window old; nothing else changes, the step is the interleaving's, and the invariant is kept |
| Pats.InMemoryPatStore.RevokePat | packages/identity/inmem.go:1361-1377 | A known token is revoked afterwards since its first revocation and fails every later lookup; nothing else changes; invariant kept |
| Base32.PackChunk | packages/identity/inmem.go:818-829 | Five bytes are packed into the number they spell, below 2^40, so the 64-bit accumulator never wraps |
| Base32.Base32StdEncodeNoPad | packages/identity/inmem.go:813-843 | The accumulator loop yields the unpadded encoding of section 6 of RFC 4648, of ceil(8n/5) characters, for every byte string |
| Base32.DecodeInvertsRfc | packages/identity/inmem.go:813-843 | A decoder of that encoding returns the original bytes |
| Base32.Rfc4648Injective | packages/identity/inmem.go:813-843 | Different byte strings have different encodings |
| Base32.Base32Alphabet | packages/identity/inmem.go:813-815 | The 32 symbols are the letters A to Z and the digits 2 to 7 |
| CborRfc.DecodesToMeaning | packages/identity/webauthn.go:397-455 | Any encoding section 3.1 of RFC 8949 allows, in any head form, of a value whose integer arguments are below 2^63, decodes at any offset to that value and consumes exactly its bytes |
| CborRfc.DecodesToMeaningIff | packages/identity/webauthn.go:397-455 | For encodings without repeated keys: the decoder returns the value the RFC gives if and only if every integer argument, in keys and values at any depth, is below 2^63 |
| CborRfc.ReadsTrueIff | packages/identity/webauthn.go:408-419 | The same on encodings alone: reading integers modulo 2^64 changes the value exactly when an argument is 2^63 or more |
| CborRfc.LargestIntegersWrap | packages/identity/webauthn.go:408-419 | The encodings of 2^64 - 1 and -2^64 decode to -1 and 0 |
| CborRfc.ValueHasEncoding | packages/identity/webauthn.go:328-333 | Every value of int64 integers, byte strings and integer-keyed maps is the RFC value of some encoding with arguments below 2^63 |
| CborRfc.ValueIsDecoded | packages/identity/webauthn.go:328-455 | Every such value is decoded from some whole buffer |
| Cbor.DecodeInvertsEncode | packages/identity/webauthn.go:397-455 | Any encoding, large arguments included, decodes to its reading modulo 2^64 and consumes exactly its bytes |
| Cbor.DecodedIsEncoded | packages/identity/webauthn.go:397-455 | Conversely, bytes that decode are an encoding that reads as what they decode to |
| Cbor.DecodesIffEncodes | packages/identity/webauthn.go:397-455 | A whole buffer decodes to a value iff it is an encoding that reads as that value |
| Cbor.DecodeCborMap | packages/identity/webauthn.go:334-348 | The map of a buffer that holds one item, a map, and no trailing bytes, and the error cases |
| Cbor.CborDecoder.ReadBytes | packages/identity/webauthn.go:355-362 | Takes n bytes and advances, or fails in place when fewer remain |
| Cbor.CborDecoder.ReadArgument | packages/identity/webauthn.go:364-395 | The argument in each of its five head forms, big-endian, and the unsupported ones |
| Cbor.CborDecoder.Item | packages/identity/webauthn.go:397-455 | One item; the offset grows by at least one and never passes the end |
| Cbor.CborDecoder.Pairs | packages/identity/webauthn.go:430-450 | The entries of a map, read in order into the map |
| Cbor.CoseKeyES256 | packages/identity/webauthn.go:460-480 | Accepts exactly 32-byte coordinates, and what it builds decodes and parses to the key with those coordinates |
| Cbor.Es256RoundTrip | packages/identity/webauthn.go:260-480 | The built bytes decode to the five fields of the key, for all coordinates |
| Cbor.Es256KeyDeterminesCoordinates | packages/identity/webauthn.go:260-282 | Keys parsed from the fields of different coordinates differ |
| Cbor.ParseAcceptsExactlyKeys | packages/identity/webauthn.go:260-282 | Fields parse to a key iff key type, curve and both 32-byte coordinates are those of the key |
| Cbor.ParseErrors | packages/identity/webauthn.go:260-282 | A key that is not EC2 on P-256 is unsupported; missing or mis-sized coordinates of one that is are malformed; there is no other error |
| Phc.ParseInvertsRender | packages/identity/hashing.go:111-181 | Parsing undoes printing for all parameters in range, salts and keys |
| Phc.DecodeInvertsEncode | packages/identity/hashing.go:111-181 | What `encodePHC` prints parses to the floor parameters, the salt and the key, for all byte strings |
| Phc.DecodePhc | packages/identity/hashing.go:127-181 | The loop over the parameters computes the parser, errors included |
| Phc.AcceptedMeansItsPrintedForm | packages/identity/hashing.go:127-181 | Printing what any accepted string parses to yields a string that parses to the same |
| PhcGrammar.PrintedForm | packages/identity/hashing.go:111-123 | The hash string is `$argon2id$v=19$m=19456,t=2,p=1$`, salt, `$`, key, and parses to those numbers, salt and key |
| PhcGrammar.MalformedIff | packages/identity/hashing.go:127-132 | Malformed are exactly the strings that are not five segments after an initial dollar |
| PhcGrammar.SegmentsMean | packages/identity/hashing.go:132-181 | Five segments are judged in order: variant, version 19, settings, non-zero parameters, salt, hash; every error exactly when it applies, and the parsed values otherwise |
| PhcGrammar.ParamsMean | packages/identity/hashing.go:142-166 | The settings are accepted exactly when every pair sets m, t or p to a number below 2^32, and each parameter is the last value given, p modulo 256 |
| PhcGrammar.OnePair | packages/identity/hashing.go:143-164 | The error of one pair: no equals sign, no such number after the first, or an unknown name before it |
| PhcGrammar.Base64Alphabet | packages/identity/hashing.go:112-122 | The 64 symbols of the salt and hash segments |
| PhcGrammar.Base64OfThree | packages/identity/hashing.go:112-122 | Three bytes are written as the four sixths of their 24 bits, fewer are filled with zero bits |

## Left out

- Postgres adapters and SQL; audit, notifications, file metadata, flags and id generation.
- Cryptography and randomness: hashing of tokens and passwords, signatures, curve membership of a public key. Whether the secret of a personal access token matches is an argument, and the map of their secret hashes is not modelled.
- Parsing of PAT token strings (regular expression and id decoding); the coalescing window is fixed at its default of 60 seconds.
- Failure of id generation: some methods have already changed the store when a second generation fails.
- JSON, error message texts, and sharing of pointers and slices between caller and store.
- MFA factors, policies and WebAuthn ceremonies; the other COSE algorithms and the dispatch on them; authenticator data.
- CBOR lengths beyond the platform's `int` range: a length is a natural number that fails when larger than the remaining bytes (the conversion at `packages/identity/webauthn.go:423`).
- A store that changes between the callbacks of one `Check`: the store is fixed during a check.
- `CheckAny`, which repeats `Check`, and the plain lookups and listings of the other entities, which repeat the pagination proved for tuples.
- Rule nodes outside the three kinds, and a nil rule set kept apart from an empty one beyond the choice of the exact-match path.
- Replacement history of credentials, which follows the shape proved for memberships.
- Paging.CursorWalk: stated for walks during which nothing is deleted and what is added has later keys, as a cursor whose row is gone restarts the listing.
