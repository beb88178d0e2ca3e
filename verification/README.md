# Authorization, provisioning and migration of the IAM service

This project models the parts of the platform orchestrator's IAM service in which
state, concurrency and access rules meet, and proves what they promise.

* **Policy refresh** (`RefreshProtocol`, `RefreshTheorems`): N replicas over one
  database.  A request commits and then reloads synchronously or signals a worker;
  channels hold one signal, replicas drop their own invalidations, a load reads
  two tables one after the other.
* **Decisions** (`Resources`, `Decision`, `DecisionTheorems`, `PermissionTheorems`,
  `Authorizer`, `DecisionCache`, `AccessDecisions`): the resource hierarchy, the loader and its de-duplication
  keys, the Casbin matcher and role graph as a small specification, one replica's
  authorizer with its caches, and concurrent requests under the policy lock.
* **SCIM** (`ScimTables`, `ScimReconcile`, `ReconcileTheorems`, `ScimOperations`,
  `AccessOperations`, `RoleOperations`, `ScimServer`, `AccessServer`, `IamServer`, `ScimTheorems`,
  `LifecycleTheorems`, `AuditTheorems`, `IdentityTheorems`, `LoginTheorems`, `ProvisioningTheorems`,
  `DirectoryTheorems`, `ReloadTheorems`): role memberships as a maintained view of
  groups and mappings.  The two reconcilers are methods on a transaction's copy of
  the tables, proved against one description; every transaction is a write
  followed by the reconciliation of the users it concerns, and `IamServer.Server`
  commits it by replacing its tables.
* **PATCH and group locking** (`ScimPatch`, `PatchTheorems`, `GroupLock`).
* **Token cache**, **startup migration**, **policy fingerprint**, **paging** and
  **gzip members** (`TokenCache`, `Migration`, `Fingerprint`, `Paging`, `Gzip`).

Grants are memberships without their ids, together with their owner: a human, or
the SCIM row on whose behalf they are managed.  "Up to fresh ids" means equality
of the sets of grants.

The halves meet in the reload (`ReloadTheorems`, `StaleDecisions`): every transaction
of `IamServer` is a step of `RefreshProtocol` on the rows a load reads, those that
report a coalesced reload are granting commits (`CommitGrant`, `Schedule`), and what a
stale replica wrongly allows is traced back to the request that revoked it.

The transactions are specified by functions that the methods are proved against.
What these functions mean is stated again in terms of stored rows, requests as sent
and literal names, without them: `PermissionTheorems`, `LoginTheorems`,
`ProvisioningTheorems`, `DirectoryTheorems` and `PatchTheorems`.  `AccessDecisions`
puts both halves together: what a policy read from the membership tables allows.

Assumptions, all visible in the contracts: transactions are atomic and row locks
exclusive; the clock gives every version of a SCIM row a new stamp; new tokens are
random and were never presented before; role memberships refer to stored roles, as
they do along every run (`RunsKeepRoles`), where role ids matter; uuid texts contain none of `$`, `@`, `:`
and role permissions no `$`; the fields of fingerprint rows contain neither NUL
nor newline and permissions are neither empty nor contain a comma; where organizations
are kept apart by identity keys, their ids contain no colon; no service user's id is a
user's (`ClearView`).

What the proofs brought to light:

* A replica loads its first policy before it subscribes to invalidations; a commit
  in between is missed until the next load (`LateSubscriptionGoesStale`,
  `LateSubscriptionIsStaleIff`).
* The internal membership grant has no SCIM gate (`DirectGrantPassesTheGate`).
* Human replacement or deletion of memberships can break a SCIM user's mapped
  access; exactly when is stated by `ReplacementInView` and `RemovalInView`.
* A binding key ignores the organization: two roles with one id and different
  powers over-grant (`SharedRoleIdOverGrants`), and only those do
  (`AgreesIffSharedIdsMatch`).  The schema permits such rows; the handlers, which
  give every role a random id and check scopes against their own organization, do
  not write them.
* Decision and binding list agree on all bindings exactly for short hierarchies
  (`AgreesIffShort`); synchronised ones are short.
* An environment listed under two projects ends below whichever the runtime
  visits last (`SyncUniqueIffDisjoint`).
* A PATCH with two spellings of one key depends on map order, for exactly the key
  sets of `UserKeysAreClearIff` and `GroupKeysAreClearIff`; members in a pathless
  object are ignored, and replacing members without a value empties the group.
* A first installation interrupted after between 1 and 27 schema migrations cannot
  be resumed (`UnfinishedInstallIsStuck`), although the comment on the upgrade
  calls it safe to retry after an interrupted reconciliation, which it is; exactly
  which interruptions are harmless is `RetryCatchesUpIff`.
* A PATCH that sets the active flag to null deactivates the user, because null
  leaves the decoded flag at false (`AcceptedIff`, `UserPatchMeans`).
* Identity keys join organization and external id by a colon; two organizations can
  share one only if an organization's id contains a colon (`KeysClashIff`).
* An organization with roles but without Viewer makes unmapped users' provisioning
  and group changes fail.

## Model

| member | source | states |
|---|---|---|
| RefreshProtocol.StepInv | internal/authorization/authorization.go:163-248 | every step of requests, loads, workers and the bus keeps the invariant that ties snapshots, channels, messages and pending requests to the commit log |
| RefreshProtocol.StepKeepsUpToDate | internal/authorization/authorization.go:163-248 | a replica whose snapshot misses a commit always has a reason on the way: a request, a signal, a message, a load or a recorded failure |
| RefreshProtocol.StepMisses | internal/authorization/authorization.go:184-195 | after a step a replica misses only revocations it missed before, or the one this very step commits: grants and deferred reloads make it miss nothing |
| RefreshProtocol.StepExplainsOverGrants | internal/authorization/authorization.go:163-173 | in every step each revocation a replica misses keeps its own synchronous request, or a later one, under way towards that replica, or the replica was left behind by a failure |
| RefreshProtocol.StepKeepsDeferred | internal/authorization/authorization.go:175-189 | an uncovered deferred request implies a full channel or a worker between receive and reload |
| RefreshProtocol.StepKeepsOwnCommits | internal/authorization/authorization.go:163-173 | a request that finished its synchronous load sees its own commit in the snapshot |
| RefreshTheorems.Convergence | internal/authorization/authorization.go:163-248 | whenever nothing is pending, every replica that nothing left behind holds exactly the database |
| RefreshTheorems.CleanRunsConverge | internal/authorization/authorization.go:163-248 | in every run without failed loads, lost messages, shutdowns or late joins, a quiet system has every replica equal to the database |
| RefreshTheorems.NoUnexplainedOverGrant | internal/authorization/authorization.go:184-195 | a policy row served but gone from the database was removed by a commit newer than what was read, and the synchronous refresh of that request or a later one has not reached the replica; else a failure left it behind or its mutex is held |
| RefreshTheorems.NoUnexplainedStaleHierarchy | internal/authorization/authorization.go:477-486 | the same, with the removing commit named, for rows of the resource hierarchy, which a load reads separately |
| RefreshTheorems.NoUnexplainedOverGrantInLoad | internal/authorization/authorization.go:450-487 | the same for policy rows a load under way has already read, although its two reads may see different commits |
| RefreshTheorems.NoUnexplainedStaleHierarchyInLoad | internal/authorization/authorization.go:477-486 | and for hierarchy rows it has already read |
| RefreshTheorems.RunsOnlyMoveForward | internal/authorization/authorization.go:191-195 | no run ever moves a replica's snapshot back to an older commit |
| RefreshTheorems.RevocationVisibleBeforeAnswer | internal/api/server.go:130-158 | a synchronous request answers only after its replica's snapshot has lost the policies it revoked, for good |
| RefreshTheorems.StaleRelationGoneBeforeAnswer | internal/api/server.go:130-158 | and the hierarchy rows it removed |
| StaleDecisions.MoreIsAllowed | internal/authorization/authorization.go:25-41 | with more role bindings, policies and hierarchy rows the engine allows everything it allowed before |
| StaleDecisions.NoUnexplainedPermit | internal/authorization/authorization.go:351-399 | a request a replica allows and the database would not is due to a row that a newer commit removed and whose synchronous refresh has not reached the replica, or to a failure |
| StaleDecisions.RefusedBeforeAnswer | internal/api/server.go:130-158 | once a synchronous request has reloaded, its replica never again allows what no state of the tables from its commit on allows |
| StaleDecisions.LockedOutBeforeAnswer | internal/api/server.go:130-158 | a subject without any binding from that commit on is refused everything by that replica |
| StaleDecisions.DecisionsConverge | internal/authorization/authorization.go:163-248 | at rest every replica nothing left behind decides every request as the database would |
| RefreshTheorems.NoDeferredReloadIsLost | internal/authorization/authorization.go:175-189 | a scheduled reload that no later load has covered leaves a full channel or a worker on its way |
| RefreshTheorems.ProgressTerminates | internal/authorization/authorization.go:207-248 | every step that finishes pending work decreases a lexicographic measure, publications first |
| RefreshTheorems.SomeProgressIsEnabled | internal/authorization/authorization.go:207-248 | while something is under way some finishing step is enabled: no deadlock |
| RefreshTheorems.ComesToRest | internal/authorization/authorization.go:207-248 | from every well-formed state the work under way can be finished |
| RefreshTheorems.EventualConvergence | internal/authorization/authorization.go:163-248 | once requests stop, the system reaches a quiet state in which every replica nothing left behind holds the database |
| RefreshTheorems.LoadRepairs | internal/authorization/authorization.go:191-195 | a waiting worker load repairs a replica that a failure had left behind |
| RefreshTheorems.TickRepairs | internal/authorization/authorization.go:207-217 | so does the next periodic reload |
| RefreshTheorems.OneLoadAbsorbsTheBurst | internal/authorization/authorization.go:222-240 | however many deferred reloads were asked for during the debounce, the one load that ends it serves them all and leaves no signal behind |
| RefreshTheorems.OnlyLoadsChangeContents | internal/authorization/authorization.go:191-195 | along any run in which a replica begins no load it serves the same tables |
| RefreshTheorems.LateSubscriptionIsStaleIff | internal/authorization/authorization.go:104-144 | a replica that loads before it subscribes serves what it read until it begins another load, and equals the database exactly while the database has those tables |
| RefreshTheorems.LateSubscriptionGoesStale | internal/authorization/authorization.go:104-144 | from any start and for any change there is a run without a failure that ends at rest with a late subscriber serving the tables from before the change, all others the new ones |
| ScimReconcile.ReconcileScimUserRoles | internal/api/scim_service.go:204-312 | reconciling one user gives the described grants, fails exactly when Viewer is needed and missing, and reports deletions truthfully |
| ScimReconcile.TargetRoles | internal/api/scim_service.go:205-259 | the target is the mapped roles, or Viewer exactly when nothing is mapped and no other role is held |
| ScimReconcile.DropStaleManaged | internal/api/scim_service.go:261-283 | exactly the managed grants outside the target go; the covered roles are those of the rest |
| ScimReconcile.CreateMissingManaged | internal/api/scim_service.go:285-306 | exactly the uncovered target roles are created, and a human's grant is never adopted |
| ScimReconcile.ResolveViewerRole | internal/api/roles.go:293-302 | built-in roles are seeded only into an organization without roles; none found exactly when roles exist without Viewer |
| ScimReconcile.ReconcileScimUsersById | internal/api/scim_service.go:332-498 | the bulk form on any id list, with repeats, inactive, foreign and missing ids, meets the same description as the simple form |
| ScimReconcile.PlanUsers | internal/api/scim_service.go:404-481 | the per-user loop queues exactly the stale memberships and the uncovered target roles, resolving Viewer at most once |
| ScimReconcile.PlanUser | internal/api/scim_service.go:404-481 | one round of it adds one user to the plan and fails exactly when this user needs a Viewer role that is missing |
| ScimReconcile.BulkTarget | internal/api/scim_service.go:386-436 | lazy Viewer resolution gives each user the same target as the simple form |
| ScimReconcile.BulkCreateManaged | internal/model/scim_group_role_mappings.go:304-359 | the bulk insert adds exactly the grants not held yet |
| ScimReconcile.Deduplicate | internal/api/scim_service.go:333-341 | the ids without repetition, none lost |
| ReconcileTheorems.ReconciledInTwo | internal/api/scim_service.go:319-331 | reconciling some rows and then others is reconciling all at once |
| ReconcileTheorems.TargetUnchanged | internal/api/scim_service.go:223-259 | reconciling any users changes no user's target, because the fallback ignores what the row itself owns |
| ReconcileTheorems.ChainHasOneViewer | internal/api/scim_service.go:223-259 | single reconciliations that each look the Viewer role up, or seed it, all find one and the same role, the Viewer role there is at the end |
| ReconcileTheorems.BulkIsEachInTurn | internal/api/scim_service.go:319-331 | single reconciliations of distinct users in any order end in the bulk description |
| ReconcileTheorems.BulkRefinesSimple | internal/api/scim_service.go:319-331 | bulk and simple form, each with the Viewer roles it finds itself, end with the same memberships and owners; if they seeded the built-in roles, up to the ids these got |
| ReconcileTheorems.ReconcileEach | internal/api/scim_service.go:204-312 | calling the simple form for one user after the other fails exactly when one of them needs a missing Viewer role, and is such a chain |
| ReconcileTheorems.ReconcileBothWays | internal/api/scim_service.go:319-498 | run side by side on any id list the two reconcilers fail together and otherwise leave the same memberships and owners, up to seeded role ids |
| ReconcileTheorems.FailsTogether | internal/api/scim_service.go:386-402 | the bulk form fails exactly when the simple form fails on one of the users, whenever its turn comes |
| ReconcileTheorems.SecondRunChangesNothing | internal/api/scim_service.go:319-331 | a second run, with whatever Viewer role it finds, deletes and creates nothing |
| ReconcileTheorems.ReconciledIsInView | internal/api/scim_service.go:188-203 | afterwards each user holds every mapped role, owns only mapped roles or Viewer, and holds some role |
| ReconcileTheorems.HumanGrantsUntouched | internal/api/scim_service.go:196-202 | human grants are neither deleted nor adopted nor added |
| ReconcileTheorems.ManualGrantKept | internal/api/scim_service.go:191-197 | a grant the row does not own survives its reconciliation |
| ReconcileTheorems.OtherRowsGrantsUntouched | internal/api/scim_service.go:191-197 | managed grants of rows that are not reconciled stay exactly as they are |
| ScimOperations.UserWriteConsistent | internal/api/scim_service.go:36-107 | the writes of provisioning, update and deletion keep every schema constraint and leave exactly the stated grants |
| ScimOperations.AccessRemovedGrants | internal/api/scim_service.go:553-605 | withdrawing access removes exactly the user's grants in the organization, human ones included |
| ScimOperations.UserWriteTables | internal/api/scim_service.go:637-718 | which rows, groups and audit events each SCIM user transaction writes |
| AccessOperations.GroupWriteConsistent | internal/model/scim_groups.go:182-250 | group and mapping writes keep the constraints and touch no grant themselves |
| AccessOperations.AccessWriteConsistent | internal/api/memberships.go:288-430 | logins, redemptions and human changes add and drop exactly the stated grants |
| ScimServer.ResolveOrCreateUser | internal/api/scim_service.go:111-182 | identity first, then an unambiguous email, else a new user; it fails exactly when the email is ambiguous |
| ScimServer.ProvisionUser | internal/api/scim_service.go:36-107 | commits the provisioning transaction, or is refused only if it is not allowed or Viewer is missing; without a synchronous reload nothing was revoked |
| ScimServer.UpdateUser | internal/api/scim_service.go:637-718 | commits the update the specification describes although it reconciles before it writes the row; stale reads are refused |
| ScimServer.UpdateAfterReconcile | internal/api/scim_service.go:669-697 | writing the row after reconciling is the same as reconciling after writing the row |
| ScimServer.DeleteUser | internal/api/scim_service.go:505-539 | succeeds exactly when the row is still the one that was read, and always reloads synchronously |
| ScimServer.RemoveOrgMembershipsAndMaybeSessions | internal/api/scim_service.go:553-605 | exactly the user's grants in the organization go, of the invitations exactly those addressed to the user, and sessions and device logins exactly if no membership is left anywhere |
| ScimServer.WriteRow | internal/api/scim_service.go:731-780 | only the sole governor writes the shared profile |
| ScimServer.CreateGroup | internal/api/scim_handlers.go:631-694 | commits the new group with its members reconciled, or is refused |
| ScimServer.SaveExistingGroup | internal/api/scim_handlers.go:715-789 | joiners, leavers and stayers are reconciled |
| ScimServer.RemoveGroup | internal/api/scim_handlers.go:902-949 | former members are reconciled |
| ScimServer.UpsertMapping | internal/api/scim_group_mappings.go:47-116 | the mapping and its group's members change together; refused exactly for a foreign role |
| ScimServer.RemoveMapping | internal/api/scim_group_mappings.go:118-161 | the same for deleting a mapping |
| AccessServer.FindScimUserForOrg | internal/model/scim_users.go:289-308 | the live row, else a tombstone; deprovisioned exactly when no active row governs the user |
| AccessServer.ResolveLogin | internal/api/sso.go:233-350 | a login resolves to the one user the gates let through, or to nobody |
| AccessServer.GetSsoCallback | internal/api/sso.go:233-395 | commits the login transaction, or no login with this assertion is allowed; reloads exactly when it adds a membership |
| AccessServer.CreateFirstMembership | internal/api/sso.go:352-395 | a user without a role gets the role named Viewer where the organization has members and Admin where it has none; everyone else keeps what they have |
| LoginTheorems.WhoLogsIn | internal/api/sso.go:224-330 | in terms of the stored rows: the bound user, else the one listed user with that email in any case, else a new one, and nobody whom the organization lists but not as active |
| LoginTheorems.FirstGrant | internal/api/sso.go:336-395 | a login takes no membership away and adds one exactly for a user without a role: as Viewer if the organization has members, as Admin if it has none |
| LoginTheorems.LoginsMakeNoAdmins | internal/api/sso.go:348-355 | no login adds an Admin membership to an organization that has members |
| LoginTheorems.LoginSucceedsIff | internal/api/sso.go:357-366 | whoever may come in does, unless the organization has roles but lost the one a first membership needs |
| LoginTheorems.LoginTables | internal/api/sso.go:281-315 | a login binds the identity, stores the asserted email and begins one session, for this user only |
| LoginTheorems.RedemptionGives | internal/api/invitations.go:299-353 | a redemption deletes the invitation, passes the gate, and adds the promised role organization-wide or nothing |
| LoginTheorems.HumanChangesGrants | internal/api/memberships.go:24-430 | a human's grant adds just that, a replacement leaves exactly what was requested, a removal takes one membership |
| LoginTheorems.ChangesAllowedIff | internal/api/memberships.go:24-430 | redemptions, grants, replacements and removals go through exactly under these conditions on the stored rows, neither more nor less |
| AccessServer.RedeemInvitation | internal/api/invitations.go:299-353 | commits the redemption behind the governance gate |
| AccessServer.CreateOrgMembership | internal/api/memberships.go:24-127 | succeeds exactly for a known user, a role of the organization and a new membership; no governance gate |
| AccessServer.ReplaceOrgUserMemberships | internal/api/memberships.go:288-430 | the loop of inserts commits the replacement, or is refused exactly when it is not allowed |
| AccessServer.DeleteOrgMembership | internal/api/memberships.go:191-253 | refuses exactly the last membership with the role named Admin; afterwards the organization has another holder of that role |
| IamServer.NewVersion | internal/model/scim_users.go:82-99 | equal stamps keep meaning equal row contents, so a matching stamp means the row is the version that was read |
| IamServer.Server.PostUser | internal/api/scim_service.go:36-107 | one committed transaction or an unchanged database |
| IamServer.Server.WriteUser | internal/api/scim_service.go:637-718 | a user write commits only if the row is still the version it was computed from |
| IamServer.Server.RemoveUser | internal/api/scim_service.go:505-539 | fails exactly when the row moved on |
| IamServer.Server.PatchUser | internal/api/scim_handlers.go:430-525 | normalised, folded over the record as read, and committed as one update, or refused with the database unchanged; with false as the last say on the active flag it commits a withdrawal |
| IamServer.Server.PutUser | internal/api/scim_handlers.go:375-428 | a full replacement: what is not sent is cleared, a missing active flag means active, a blank user name is refused |
| IamServer.Server.PatchGroup | internal/api/scim_handlers.go:791-900 | the stored group becomes the fold of the operations over the group as stored under the lock |
| IamServer.Server.PutGroup | internal/api/scim_handlers.go:715-789 | a full replacement in one transaction |
| IamServer.Server.Login | internal/api/sso.go:142-424 | one committed login or an unchanged database; a reload exactly if a membership was added |
| IamServer.Server.PostRole | internal/api/roles.go:169-198 | a role is created unless its name is built-in or taken |
| IamServer.Server.PutRole | internal/api/roles.go:200-238 | a role is renamed unless it or the new name is built-in, or the name is taken |
| IamServer.Server.DropRole | internal/api/roles.go:240-268 | a role is deleted exactly if it is not built-in and no membership refers to it |
| ScimTheorems.UserTransactionKeepsView | internal/api/scim_service.go:36-107 | provisioning, update and deletion keep every active user's access in line with the directory, and inactive rows without managed grants |
| ScimTheorems.GroupTransactionKeepsView | internal/api/scim_handlers.go:684-690 | so do group and mapping changes: whoever is not reconciled has unchanged mapped roles |
| ScimTheorems.AccessTransactionKeepsView | internal/api/sso.go:352-395 | so do logins, redemptions and human grants |
| RoleOperations.RoleWriteConsistent | internal/model/roles.go:112-125 | creating, renaming and deleting roles keeps every constraint, mappings to a deleted role go with it, and no grant is touched |
| RoleOperations.MappedRolesStay | internal/model/roles.go:112-121 | a role that some user in view is mapped to cannot be deleted, so nobody in view loses a mapped role |
| RoleOperations.RoleTransactionKeepsUser | internal/api/roles.go:240-268 | whoever has what the directory calls for still has it after any change of roles |
| ScimTheorems.RunsKeepRoles | internal/model/migrations/000015_memberships_invitations_role.sql:15-15 | along every run each role membership refers to a stored role of its own organization |
| ScimTheorems.RunsKeepView | internal/api/scim_service.go:184-203 | and so does every run of these transactions |
| ScimTheorems.ReplacementInView | internal/api/memberships.go:288-430 | a human replacement leaves a SCIM user in view exactly if it requests all mapped roles and some role |
| ScimTheorems.RemovalInView | internal/api/memberships.go:191-253 | a human deletion does exactly if the membership was not a mapped role and another role remains |
| ScimTheorems.RemovalConcernsOneUser | internal/api/memberships.go:191-253 | nobody else's view is affected by a human removal |
| ScimTheorems.RemovalSparesIff | internal/api/memberships.go:191-430 | a human removal leaves a user in view exactly if it concerns another user or leaves all mapped roles and some role |
| ScimTheorems.RunsKeepUserInView | internal/api/scim_service.go:184-203 | one user stays in view over every run, human removals included, as long as each of these spares them |
| LifecycleTheorems.WithdrawalRemovesAccess | internal/api/scim_service.go:505-605 | after a deactivation or deletion: no membership in the organization, no redeemable invitation, and with the last membership no session and no device login |
| LifecycleTheorems.WithdrawalIsFinal | internal/api/sso.go:233-350 | no later run gives access back before reactivation, a new provisioning or a direct internal grant |
| LifecycleTheorems.GatesHold | internal/api/invitations.go:310-318 | no login, redemption or replacement adds a membership for a withdrawn user |
| LifecycleTheorems.DirectGrantPassesTheGate | internal/api/memberships.go:24-127 | the internal grant has no gate: it always lets a withdrawn user back in |
| AuditTheorems.TransactionAudited | internal/api/scim_events.go:15-51 | every transaction keeps each row's audit trace in step with the row |
| AuditTheorems.RunsAreAudited | internal/api/scim_events.go:15-51 | and so does every run |
| AuditTheorems.EveryRunIsInOrder | internal/api/scim_service.go:36-107 | constraints, view and audit trail hold after any run from a database without SCIM data |
| AuditTheorems.ProvisionedAlternates | internal/api/scim_service.go:661-683 | between two provisioned events of a row there is a deprovisioned one |
| AuditTheorems.NothingAfterDeletion | internal/api/scim_service.go:530-533 | nothing follows a row's deletion event |
| AuditTheorems.EndsProvisionedIffActive | internal/api/scim_events.go:15-51 | the last event is provisioned exactly when the row is active |
| AuditTheorems.SilentIffNeverActive | internal/api/scim_service.go:73-88 | over every run a row has no event exactly if it was never active and never deleted in any state of the run |
| AuditTheorems.HumanGrantEnds | internal/api/scim_service.go:542-552 | a human's grant ends exactly by withdrawing the user or by a human's removal |
| AuditTheorems.NothingStaleOnlyGrants | internal/api/scim_service.go:93-105 | an update or provisioning whose reconciliation deletes nothing only adds grants, so its reload may be coalesced |
| ReloadTheorems.MoreGrantsMorePolicies | internal/model/authorization.go:69-87 | more grants, with the roles there were, are more rows of the policy query |
| ReloadTheorems.CoalescedReloadIsForAGrant | internal/api/server.go:143-158 | the commit of a user transaction that took no grant away is a granting commit of the refresh protocol, so the deferred reload is enough |
| ReloadTheorems.TransactionIsAStep | internal/api/server.go:130-158 | every transaction with the reload the server asks for is a step of the refresh protocol: any commit if synchronous, a granting commit if coalesced, and nothing a load would see if there is no reload |
| AccessDecisions.UserIsAllowedIff | internal/model/authorization.go:69-121 | a policy read from the membership tables allows a user exactly what some membership of theirs does: a stored role of its organization, a permission that gives the action, a scope that reaches the resource |
| AccessDecisions.WithdrawnAreRefused | internal/api/scim_service.go:505-605 | after a deactivation or deletion it allows the user nothing but what memberships of other organizations allow |
| AccessDecisions.FirstLoginAllows | internal/api/sso.go:336-395 | a newcomer's first login lets them do what read_all gives, in that organization only; the first member of an organization may do everything there |
| AccessDecisions.MappedMembersMay | internal/model/scim_group_role_mappings.go:304-359 | members of a mapped group may do what the mapped role permits as soon as they are in view |
| IdentityTheorems.ProvisioningIsRemembered | internal/api/scim_service.go:111-150 | provisioning a known external id again resolves to the same person, whatever email comes with it |
| IdentityTheorems.RebindingIsRemembered | internal/api/scim_service.go:690-704 | a changed external id is bound to the same person and retired keys keep their meaning |
| IdentityTheorems.KeysClashIff | internal/api/scim_service.go:112-112 | identity keys of two organizations can coincide only if one organization's id continues the other's after a colon |
| IdentityTheorems.OtherOrganizationsDoNotMatter | internal/api/scim_service.go:112-124 | over every run of other organizations' provisionings, rebindings and deletions and of all other transactions, an external id stands for the same user as before, or still for nobody |
| IdentityTheorems.OwnIdsAfter | internal/api/scim_service.go:690-704 | within the organization exactly the external id handed out changes hands, to the person of the record |
| IdentityTheorems.ExternalIdDecides | internal/api/scim_service.go:114-127 | an external id that stands for someone decides, whatever name and email come with it |
| ProvisioningTheorems.WhoIsProvisioned | internal/api/scim_service.go:111-182 | in terms of the stored rows: whom the external id stands for, else the one user with the email, or with a user name that looks like one, in any case, else a new user |
| ProvisioningTheorems.ProvisioningStores | internal/api/scim_service.go:56-72 | one new row as requested, for a user and a name without a live one, and a new user only if nobody was found |
| ProvisioningTheorems.UpdateStores | internal/api/scim_service.go:686-780 | the record that was sent replaces the one that was read, under a name nobody else has; the shared email changes exactly if no other live record of any organization is of that user |
| ProvisioningTheorems.DeletionStores | internal/api/scim_service.go:505-539 | an inactive tombstone that is in no group |
| ProvisioningTheorems.UserChangesAllowed | internal/api/scim_service.go:637-718 | so do provisionings, updates and deletions |
| ProvisioningTheorems.WithdrawalTakes | internal/api/scim_service.go:553-605 | exactly the user's memberships in the organization, the invitations to one of their addresses in any case, and the sessions and devices once no membership is left anywhere |
| ProvisioningTheorems.RunsKeepUserNames | internal/model/migrations/000035_scim_case_insensitive_uniqueness.sql:72-72 | along every run no two live records of an organization have the same user name, whatever its case |
| ProvisioningTheorems.PatchedInactive | internal/api/scim_handlers.go:468-515 | a PATCH whose last say on the active flag is false takes an active user's memberships in the organization, all of them and no others |
| ProvisioningTheorems.PatchedToFalse | internal/api/scim_handlers.go:468-515 | in particular one operation that sets it to the word false, however spelled, in the path form or the pathless form |
| DirectoryTheorems.ViewMeans | internal/api/scim_service.go:188-203 | in terms of the stored rows: every role mapped to a group the user is in, whatever the case of its name, is held; managed memberships are mapped roles, or Viewer where nothing is mapped; some role is held |
| DirectoryTheorems.ReconcileMoves | internal/api/scim_service.go:188-203 | of the managed memberships exactly those no longer called for go, exactly those called for and not held come, Viewer is the fallback of users with no mapped and no other role, and nothing else moves |
| DirectoryTheorems.TouchedAreInView | internal/api/scim_handlers.go:684-690 | every active record that is or was a member of a changed group, or of a group whose mapping changes, is in view afterwards |
| DirectoryTheorems.MappingGivesRole | internal/api/scim_group_mappings.go:47-116 | mapping a group's name, in any case, gives the role to its active members at once |
| DirectoryTheorems.LeavingTakesRole | internal/api/scim_handlers.go:715-789 | who is in no group that maps a role any more keeps no managed membership in it |
| DirectoryTheorems.GroupTablesAfter | internal/model/scim_groups.go:182-250 | what group and mapping changes store; names are unique and mappings found whatever their case, members are live records of the organization |
| DirectoryTheorems.GroupChangesAllowed | internal/model/scim_groups.go:182-250 | group and mapping changes go through exactly under these conditions on the stored rows |
| DirectoryTheorems.RunsKeepLowerKeys | internal/model/scim_group_role_mappings.go:24-60 | along every run a mapping is found under its group name whatever the case: the keys that stand for the unique index are lower-cased |
| DirectoryTheorems.RoleChangesAllowed | internal/api/roles.go:169-268 | role changes are let through exactly for names other than Admin, Deployer and Viewer that are not taken, and deletions of roles nobody holds |
| DirectoryTheorems.RoleChangesStore | internal/api/roles.go:271-302 | the three built-in roles are made exactly in an organization without roles, and a deleted role takes its mappings along |
| IdentityTheorems.SharedProfileStays | internal/api/scim_service.go:720-745 | while another organization also governs the user, no update touches the shared profile |
| IdentityTheorems.LoginIsRemembered | internal/api/sso.go:283-300 | after a login its identity stands for the same user in every organization and with any email |
| IdentityTheorems.InvitationIsUsedUp | internal/api/invitations.go:320-353 | a redeemed invitation is gone and the user has what it promised |
| Decision.ProvisioningNeedsItsGrant | internal/authorization/authorization.go:298-307 | provisioning permissions are given by their exact grant or manage_all only |
| Decision.UnknownPermissionsMatchExactly | internal/authorization/authorization.go:308-311 | permissions outside the catalogue match themselves or manage_all only |
| Decision.WildcardsAreNested | internal/authorization/authorization.go:312-322 | what read_all gives write_all gives, and manage_all gives everything |
| PermissionTheorems.MatchesExactly | internal/authorization/authorization.go:274-347 | the matcher allows exactly what the table of all grants and requests says: write_all gives ordinary reads and writes and never a manage permission, and so on for each level grant, member and the legacy module grants |
| PermissionTheorems.CustomIffOutsideTheLevels | internal/authorization/authorization.go:435-443 | a permission counts as custom exactly if no grant of a whole level can give it |
| PermissionTheorems.AllowedExactly | internal/model/authorization.go:218-245 | over synchronised hierarchies and role ids of one organization each, a request is allowed exactly if one stored permission of one binding, in scope of the resource, gives it by that table |
| PermissionTheorems.RefusedWithoutGrant | internal/authorization/authorization.go:25-41 | whatever the hierarchy and the role ids, an action none of the subject's roles has a permission for is refused on every resource |
| PermissionTheorems.WritersDoNotManage | internal/api/roles.go:271-276 | subjects whose roles hold only read and write grants, as the built-in Viewer and Deployer do, are refused every management action |
| PermissionTheorems.OneBindingDecides | internal/api/roles.go:271-276 | a subject with one role of one permission may do exactly what that permission gives, exactly in the binding's scope |
| Decision.BindingKeyInjective | internal/authorization/authorization.go:489-491 | a binding key determines role id and resource |
| Decision.MembershipKeyDetermines | internal/authorization/authorization.go:460-465 | the de-duplication key of a role binding determines its fact |
| Decision.PolicyKeyDetermines | internal/authorization/authorization.go:467-474 | the de-duplication key of a policy determines its fact, because permissions contain no dollar sign |
| Decision.LoadPolicy | internal/authorization/authorization.go:450-487 | skipping seen keys loads exactly the facts of the rows, whatever their order |
| Decision.LoaderLoadsTheDatabase | internal/model/authorization.go:69-121 | the query rows satisfy the loader's assumptions and give the facts of the database |
| DecisionTheorems.LinksGoUp | internal/authorization/authorization.go:25-41 | reachability in the resource graph within the depth limit is the chain of ancestors |
| DecisionTheorems.EffectiveScopesAreUp | internal/model/authorization.go:220-232 | the recursive ancestor query gives the resource and its ancestors up to three steps |
| DecisionTheorems.EnforceDecides | internal/authorization/authorization.go:25-41 | for every table: Casbin allows exactly what bindings of the same role id on the same resource give, within ten steps |
| DecisionTheorems.AllowedIffGranted | internal/model/authorization.go:218-245 | if roles that share an id allow the same actions and chains are short, a request is allowed exactly when an effective binding of the resource grants it |
| DecisionTheorems.TypedHierarchiesAreShort | internal/api/scoped_roles_sync.go:31-54 | synchronised hierarchies are at most two steps high, below both limits |
| DecisionTheorems.AgreesAfterSync | internal/api/scoped_roles_sync.go:20-60 | so decision and binding list agree after every synchronisation |
| DecisionTheorems.AgreesIffShort | internal/model/authorization.go:13-13 | they agree for all bindings exactly when no chain distinguishes the two depth limits |
| DecisionTheorems.SharedRoleIdOverGrants | internal/authorization/authorization.go:489-491 | whenever two roles share an id and one allows an action the other does not, bindings of two organizations on one resource make the engine allow what no binding grants |
| DecisionTheorems.SharedRoleIdWitness | internal/authorization/authorization.go:489-491 | for example a role that only reads in one organization and may do everything in the other |
| DecisionTheorems.AgreesIffSharedIdsMatch | internal/authorization/authorization.go:489-491 | over a short hierarchy and given roles, decision and binding list agree for every set of bindings if and only if roles that share an id allow the same actions or one allows none |
| Authorizer.ParseText | internal/authorization/authorization.go:250-272 | stored resource names are parsed back to themselves |
| Authorizer.ParsedIsTextOrAlias | internal/authorization/authorization.go:250-272 | whatever parses is a stored name or the org alias of one |
| Authorizer.ParsedIff | internal/authorization/authorization.go:250-272 | exactly the texts organization:id, org:id, project:id and env:id with a non-empty id name resources, and which they name |
| Authorizer.CasbinAuthorizer.ReloadPolicy | internal/authorization/authorization.go:163-173 | the snapshot becomes the loaded one or stays, the cache is empty either way, only a successful load is published, and the call fails if the load or the publication does |
| Authorizer.CasbinAuthorizer.ScheduleReloadPolicy | internal/authorization/authorization.go:184-189 | the signal channel is full afterwards |
| Authorizer.CasbinAuthorizer.HandleInvalidation | internal/authorization/authorization.go:197-205 | a replica ignores its own invalidations |
| Authorizer.CasbinAuthorizer.KnownCustomPermissions | internal/authorization/authorization.go:401-433 | every custom permission is answered by what the store said since the last reload; a failed query changes nothing and fails the call |
| Authorizer.CasbinAuthorizer.Authorize | internal/authorization/authorization.go:351-399 | all checks of a request are answered by one snapshot, with any pattern of cache hits, misses and expiries; it fails only for a malformed resource or a failed query |
| DecisionCache.StepCoherent | internal/authorization/authorization.go:191-195 | every step of concurrent requests and reloads keeps the cache coherent with the policy |
| DecisionCache.ServedVerdictIsCurrent | internal/authorization/authorization.go:351-399 | in every run a verdict served from the cache is the current policy's |
| DecisionCache.KnownEntriesAreAnswers | internal/authorization/authorization.go:401-433 | in every run a known-permission entry repeats an answer of the store since the last reload |
| DecisionCache.ReloadLeavesNothing | internal/authorization/authorization.go:191-195 | a reload empties the cache even if the new policy cannot be loaded |
| DecisionCache.FillAcrossInstallPoisons | internal/authorization/authorization.go:191-195 | without the lock there is, for every installation that changes a verdict, a run of the same steps after which the old verdict is served |
| Resources.SyncAuthorizationResources | internal/api/scoped_roles_sync.go:20-60 | the nested upserts write the organization, its projects and their environments in any order of projects, and nothing else |
| Resources.SyncKeepsShape | internal/api/scoped_roles_sync.go:31-54 | parents stay stored and correctly typed |
| Resources.SyncIsMerge | internal/model/authorization.go:200-211 | with disjoint answers the outcome is the merge of the named rows |
| Resources.SyncUniqueIffDisjoint | internal/api/scoped_roles_sync.go:38-54 | the outcome is independent of map order exactly when no environment is listed under two projects |
| Resources.SyncPlaces | internal/api/scoped_roles_sync.go:31-54 | in terms of the stored rows: the organization on top, its projects below it, each environment below a project that lists it, all other rows as they were |
| Migration.Reconcile | internal/authorizationmigration/reconcile.go:28-52 | a run cut off after any organization has written exactly the rows of those before |
| Migration.CutOffRunsDoNotMatter | internal/authorizationmigration/reconcile.go:28-52 | runs cut off anywhere, any number of times, and then a full run give the table of one full run |
| Migration.FullRunPlaces | internal/api/scoped_roles_sync.go:31-54 | after a full run every environment is below its project and every project below its organization |
| Migration.FullRunPlacesRows | internal/api/scoped_roles_sync.go:31-54 | the same in terms of the stored rows |
| Migration.MigrateUp | internal/model/databaser.go:65-71 | the schema migrations, whose numbers skip 23, are applied one at a time, each durable on its own, up to the latest or the interruption |
| Migration.Upgrade | internal/authorizationmigration/upgrade.go:25-90 | the versioned branches and the migrations on opening the database, interrupted after any number of durable changes, follow the attempt specification |
| Migration.VerifyAndReconcile | internal/authorizationmigration/upgrade.go:98-151 | so does everything after the schema migrations |
| Migration.ServedIsVerified | internal/authorizationmigration/upgrade.go:98-147 | a database is returned only at the latest schema, verified and marked reconciled, and with an unchanged fingerprint if this attempt reconciled |
| Migration.ServedAsExpected | internal/authorizationmigration/upgrade.go:98-147 | traffic is served only on the fingerprint the operator asked for, a first reconciliation keeps to the stored fingerprint or stores the one it found, and never from versions 1 to 28 |
| Migration.LegacyDataIsTrusted | internal/authorizationmigration/upgrade.go:60-72 | version 29 is touched only if the preflight is ready and has the fingerprint asked for |
| Migration.RefusedForACause | internal/authorizationmigration/upgrade.go:53-147 | an attempt refuses only for the schema version, the preflight, a fingerprint that differs or a check that fails |
| Migration.FirstInstallationByStep | internal/model/databaser.go:65-71 | a first installation cut off after any of the first 29 migrations: which version it is left at, and that the resource table appears with number 30 |
| Migration.MarksAreLasting | internal/authorizationmigration/upgrade.go:124-144 | a stored fingerprint is never replaced, and the reconciled mark is set only by an attempt that serves |
| Migration.RetryCatchesUpIff | internal/authorizationmigration/upgrade.go:20-24 | with unchanged policy data an interrupted upgrade and its retry end like one uninterrupted upgrade if and only if the store left behind is not at versions 1 to 28, nor at 29 with a preflight that fails |
| Migration.ManyRetriesCatchUpIff | internal/authorizationmigration/upgrade.go:20-24 | the same for any number of interruptions |
| Migration.ReconciledRetry | internal/authorizationmigration/upgrade.go:104-110 | an interrupted repair of a reconciled store is served on retry or ends like an uninterrupted one |
| Migration.UnfinishedInstallIsStuck | internal/authorizationmigration/upgrade.go:76-79 | a first installation cut off after between 1 and 27 migrations is left at a version from 1 to 28, is refused by every later attempt in every state of the world, and stays as it is |
| Migration.UnfinishedIffCutEarly | internal/authorizationmigration/upgrade.go:53-59 | exactly first installations cut off after between 1 and 27 migrations end in that state; the 28th leads to version 29, whose preflight decides |
| Fingerprint.CanonicalText | internal/authorizationmigration/report.go:310-367 | the appended, sorted and joined lines are the canonical text of the rows |
| Fingerprint.SortIffSameItems | internal/authorizationmigration/report.go:319-319 | sorting forgets exactly the order |
| Fingerprint.LineInjective | internal/authorizationmigration/report.go:337-338 | a line determines its row |
| Fingerprint.LinesAreLaidOut | internal/authorizationmigration/report.go:337-361 | the five fields of a role line and of a binding line and what separates them |
| Fingerprint.LeIsLexicographic | internal/authorizationmigration/report.go:319-319 | the order of the lines is that of their first different characters |
| Fingerprint.FingerprintIsFaithful | internal/authorizationmigration/report.go:310-322 | two policies have the same text exactly when they have the same roles and bindings, as multisets |
| Fingerprint.EntryForgetsPermissionOrder | internal/authorizationmigration/report.go:336-338 | and role rows are identified exactly up to the order of their permissions |
| Gzip.DecodeGzipMembers | scripts/release_content.py:16-86 | decoding succeeds exactly when the bytes split into padding and members within all three bounds, and then returns their payloads and metadata in order |
| Gzip.SplitsJoin | scripts/release_content.py:33-86 | the pieces put together are the input |
| Gzip.SplitsUnique | scripts/release_content.py:33-86 | there is at most one way to split an input |
| Gzip.EarlyBoundIsHarmless | scripts/release_content.py:57-63 | the bounded NUL search gives up only on headers the metadata bound rejects anyway |
| Gzip.ReadHeader | scripts/release_content.py:45-66 | the header parser finds the end of the header, or there is none within the budget |
| Gzip.ReadMember | scripts/release_content.py:45-83 | one member, or no member here fits the budgets |
| Gzip.HeaderEndIff | scripts/release_content.py:45-66 | the parser accepts exactly the headers of section 2.3 of RFC 1952, built from their fields, and finds where they end |
| Gzip.PiecesAreLaidOut | scripts/release_content.py:33-86 | every member of a split is such a header, a body and eight trailer bytes, and padding is zeros |
| Paging.RoleRank | internal/api/permissions.go:36-53 | the loop computes the closed form of the rank, whatever the order of permissions |
| Paging.WildcardsRankFirst | internal/api/permissions.go:36-53 | manage_all outranks up to 299 other permissions, write_all up to 199 and read_all up to 99; without wildcards the longer list wins |
| Paging.StrongestRoleShown | internal/api/permissions.go:55-66 | among roles of fewer than a hundred permissions the role shown holds the strongest wildcard the user has anywhere, else it is the longest, and of equals the one with the smallest id |
| Paging.OneRoleShown | internal/api/permissions.go:60-66 | the role shown per user does not depend on the order of the bindings |
| Paging.ListUsers | internal/api/permissions.go:60-78 | exactly the wanted users, strictly in id order, each with the best role |
| Paging.ListPage | internal/api/permissions.go:55-97 | a request returns the page after its cursor and the next cursor |
| Paging.PageIsNext | internal/api/permissions.go:80-97 | a page is the next users after the cursor, at most a hundred unless told otherwise, and hands on its last user exactly if more follow |
| Paging.WalkVisitsEveryoneOnce | internal/api/permissions.go:80-96 | following the cursors visits every user exactly once, in order, for any page size, and ends |
| ScimPatch.ExpandObject | internal/api/scim_parse.go:118-133 | a pathless object becomes the operations of its known attributes in the order of some walk over its keys, or is refused exactly for a malformed value |
| ScimPatch.NormalizePatchOps | internal/api/scim_parse.go:78-186 | requests are refused exactly for a missing schema, the wrong number of operations or a malformed one; otherwise the operations keep their order |
| ScimPatch.UserPatchIsDeterministic | internal/api/scim_handlers.go:473-515 | if every object meets that condition a whole user PATCH does not depend on map iteration order |
| ScimPatch.GroupPatchIsDeterministic | internal/api/scim_handlers.go:836-877 | nor does a group PATCH |
| ScimPatch.UserKeysAreClearIff | internal/api/scim_parse.go:118-133 | for a set of keys a user object means one thing for all users and well-formed values if and only if no attribute whose last operation counts is spelled twice, or the object removes the user name and is refused anyway |
| ScimPatch.GroupKeysAreClearIff | internal/api/scim_parse.go:118-133 | the same for groups, where only display name and external id count |
| ScimPatch.TwoSpellingsDecideForUsers | internal/api/scim_parse.go:118-133 | two spellings of such an attribute: for any user there are well-formed values with which the runtime's map order decides |
| ScimPatch.TwoSpellingsDecideForGroups | internal/api/scim_parse.go:118-133 | the same for any group |
| ScimPatch.LastOperationDecides | internal/api/scim_handlers.go:860-874 | the last operation with a say on a member decides; otherwise the stored set does |
| ScimPatch.FoldGroup | internal/api/scim_handlers.go:833-877 | the handler's loop is the left-to-right fold |
| ScimPatch.FoldUser | internal/api/scim_handlers.go:468-515 | the handler's loop over a user PATCH is the left-to-right fold |
| ScimPatch.PathlessObjectsKeepMembers | internal/api/scim_parse.go:216-220 | members inside a pathless object are passed over |
| ScimPatch.ReplaceWithoutValueEmpties | internal/api/scim_parse.go:190-194 | replacing the members without a value empties the group |
| PatchTheorems.AcceptedIff | internal/api/scim_parse.go:92-235 | which operations pass as sent: the verbs in any case, booleans also as the words true and false, texts, mail forms, member lists up to ten thousand valid ids, null where it decodes |
| PatchTheorems.UserPatchMeans | internal/api/scim_handlers.go:468-515 | for every request as sent: refused exactly if it removes or blanks the user name, otherwise each attribute is what the last operation with a say on it means, and unchanged without one |
| PatchTheorems.GroupPatchMeans | internal/api/scim_handlers.go:836-859 | the same for a group's name and external id |
| PatchTheorems.MembersAreAsSent | internal/api/scim_handlers.go:860-877 | for every group request as sent the last operation with a say on a member decides their membership |
| PatchTheorems.ActiveIsAsSent | internal/api/scim_types.go:61-89 | one accepted operation on active, by path or as the only key of a pathless object, makes the user active exactly for true or the word true in any case, and changes nothing else |
| GroupLock.StepLinearised | internal/api/scim_handlers.go:810-893 | every step of concurrent PUT, PATCH, DELETE and user deletion keeps the group equal to a one-by-one run |
| GroupLock.ConcurrentWritesLinearise | internal/api/scim_handlers.go:737-787 | for any interleaving the group and every answer are those of running the committed requests in lock order |
| GroupLock.NoChangeIsLost | internal/model/scim_groups.go:264-271 | what the committed requests so far made of a member stands as long as no later request has a say on that member |
| GroupLock.LastSayStands | internal/api/scim_handlers.go:791-893 | in every interleaving the last operation of a written PATCH with a say on a member decides it unless a later committed request has a say too |
| GroupLock.LastRequestStands | internal/api/scim_handlers.go:715-900 | in every interleaving the last committed request has what it asked for: the group as sent, no group, or the member gone; a request that found none or was refused changed nothing |
| GroupLock.DeletedStays | internal/api/scim_handlers.go:902-949 | once deleted a group is missing for every later request |
| TokenCache.GetTokenByHashCache.GetTokenByHash | internal/api/authenticate.go:267-337 | the cached lookup and the cache it leaves; hits and misses are counted truthfully |
| TokenCache.GetTokenByHashCache.InternalAuthenticate | internal/api/authenticate.go:180-199 | a presented token is accepted exactly as the looked-up row, its end and the rule for bound service users say |
| TokenCache.StepInv | internal/api/authenticate.go:267-337 | issuing, revoking, ticking, evicting and presenting keep the cache invariant |
| TokenCache.AcceptedIffStored | internal/api/authenticate.go:183-199 | a session or workload token is accepted exactly while its row is stored and unexpired; no negative entry hides it |
| TokenCache.AcceptedWasRecent | internal/api/authenticate.go:299-337 | a service-user token is accepted only if a row that is unexpired now, and not of a bound user that may not use static tokens, was read at some moment within the last TTL |
| TokenCache.ReadsAreTrue | internal/api/authenticate.go:299-337 | what counts as read was in the database in a state of the run at that moment |
| TokenCache.AcceptedWasStored | internal/api/authenticate.go:299-337 | so over runs in which tokens are issued, changed, rotated and revoked an accepted service-user token was stored, as accepted, in some state within the last TTL |
| TokenCache.AcceptedIffUsable | internal/api/authenticate.go:187-199 | a service-user token is accepted exactly if it is found, unexpired now, and unbound, or static tokens are on and it holds no roles |
| TokenCache.BoundTokensAreRefused | internal/api/authenticate.go:194-199 | over every run: if each row the token had within the last TTL was of a bound user with roles, or of a bound user while static tokens are off, it is refused |
| TokenCache.SettledTokensAreJudgedByTheirRow | internal/api/authenticate.go:187-199 | over every run: a token whose row stayed the same for the TTL is accepted exactly as that row says |
| TokenCache.AnswersAreKept | internal/api/authenticate.go:299-337 | an answer read from the database serves a service-user token for the TTL, boundary included, whatever the rows become, and then no longer |
| TokenCache.ValidServiceUserIsFound | internal/api/authenticate.go:326-333 | a stored service-user token is never hidden by a negative entry |
| TokenCache.KindsAreSeparate | internal/api/authenticate.go:269-273 | tokens of one kind never answer for another |

## Left out

- Generated API code, HTTP plumbing, permission checks of handlers, logging, configuration and start-up: no hard property.
- PostgreSQL, NATS, ccache, zlib, JWT and Casbin internals: small specifications stand for them (atomic transactions, exclusive row locks, arbitrary eviction, a decoder oracle, a bounded reachability search).
- Cache keys: the decision and known-permission caches are keyed by tuples, so key texts that collide because a resource contains `$$` are not modelled.
- Debounce and ticker periods: nondeterministic steps stand for them.
- TokenCache.AcceptedWasRecent: reading the row and storing the entry are one step, so the time a database read takes is not added to the TTL.
- AccessServer.RedeemInvitation: the redemption token and expiry checks are not modelled; a redemption is assumed to have passed them.
- AccessServer.GetSsoCallback: state parsing, the provider exchange and the multitenant SSO configuration check come before the modelled transaction.
- AccessServer.CreateOrgMembership: the control-plane checks of organization and scope, and the conversion of the owners virtual group to the Admin role, come before the modelled transaction.
- AccessServer.ReplaceOrgUserMemberships: the refusal to change one's own memberships and the scope check are not modelled.
- ScimServer.WriteRow: display names are not modelled; of the shared profile only the email is.
- ScimServer.UpsertMapping: trimming and the blank-name refusal come before the modelled transaction.
- LOWER(): folds ASCII letters only.
- ScimPatch.NormalizePatchOps: the regular expressions for bracket paths and JSON decoding are replaced by decoded values; what remains of JSON is the kind of a value.
- Service-user administration, permissions of roles, invitation creation, device login and session listing, platform principals, plugin capabilities, SCIM list queries, filters and static documents: only easy members, or guards on single rows.
- IamServer.Server.DropRole: a role is deleted whenever no membership refers to it; that a service user's binding prevents it too is not modelled.
- IamServer.Server.PutRole: renames only; the permissions of roles are not part of these tables.
- loadOrganizationResources: the paged control-plane calls are a fixed answer per organization.
- Inspect: the migration report's checks are an oracle for readiness and a fingerprint per reading.
- SHA-256: taken as injective; the theorems are about the text it hashes.
- OCI inspection, publication and licence scripts other than the gzip decoder: file and process I/O.
