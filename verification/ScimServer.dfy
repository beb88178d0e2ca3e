/**
 * The server's transactions.  Each one works on its own copy of the tables and
 * commits by replacing the server's; on any error the database stays as it was.
 * Every method is proved against the specification of its transaction, and
 * reports how the authorization policy is reloaded after the commit.
 */
module ScimServer {
  import opened Common
  import opened ScimTables
  import opened ScimReconcile
  import opened ReconcileTheorems
  import opened ScimOperations
  import opened AccessOperations
  import opened ScimTheorems

  datatype Failure =
    | NotFound
    | BadRequest
    | StaleRead
    | NameTaken
    | AlreadyProvisioned
    | AmbiguousEmail
    | IdentityTaken
    | UnknownMembers
    | RoleNotFound
    | NoSuchBuiltinRole
    | WithdrawnByScim
    | DuplicateMembership
    | LastAdmin

  /** Revocations reload synchronously; pure grants may be coalesced. */
  datatype Reload = NoReload | Synchronous | Coalesced

  // --------------------------------------------- reconciling before or after a write

  predicate SameOwners(rows: map<Id, ScimRow>, rows': map<Id, ScimRow>) {
    forall id :: id in rows ==> id in rows' && IsRowOf(rows'[id], rows[id].org, rows[id].user)
  }

  /** Reconciliation reads groups, mappings, roles, memberships and row owners, nothing else. */
  lemma ReconcileCommutes(a: Tables, b: Tables, a': Tables, b': Tables, org: string, ids: set<Id>, viewer: Id)
    requires ReconciledTo(a, b, org, ids, viewer) && ids <= a.rows.Keys
    requires Consistent(b') && SameExceptGrants(a', b')
    requires Grants(a') == Grants(a) && Grants(b') == Grants(b)
    requires a'.roles == a.roles && b'.roles == b.roles && a'.nextId == a.nextId
    requires a'.groups == a.groups && a'.mappings == a.mappings && SameOwners(a.rows, a'.rows)
    ensures ReconciledTo(a', b', org, ids, viewer)
  {
    hide Consistent, Grants, MappedRoles, Stale, HasRoles, WithBuiltins;
    var targets := Targets(a, ids, viewer);
    forall id | id in ids ensures NeedsViewer(a', id) == NeedsViewer(a, id) {
    }
    assert Targets(a', ids, viewer) == targets;
    var kept := Grants(a) - Stale(Grants(a), targets);
    assert Missing(kept, a'.rows, targets) == Missing(kept, a.rows, targets) by {
      MissingSameOwners(kept, a.rows, a'.rows, targets);
    }
  }

  lemma MissingSameOwners(kept: set<Grant>, rows: map<Id, ScimRow>, rows': map<Id, ScimRow>, targets: map<Id, set<Id>>)
    requires SameOwners(rows, rows') && targets.Keys <= rows.Keys
    ensures Missing(kept, rows', targets) == Missing(kept, rows, targets)
  {
    forall id, role | id in targets ensures RoleMembership(rows'[id], role) == RoleMembership(rows[id], role) {
    }
  }

  lemma EventAfterReconcile(a: Tables, b: Tables, org: string, ids: set<Id>, viewer: Id, e: Event)
    requires ReconciledTo(a, b, org, ids, viewer) && ids <= a.rows.Keys
    ensures ReconciledTo(WithEvent(a, e), WithEvent(b, e), org, ids, viewer)
  {
    hide Consistent, Grants, Reconciled, NeedsViewer, Target, HasRoles, WithBuiltins;
    GrantsOnlyDependOnMemberships(a, WithEvent(a, e));
    EventConsistent(b, e);
    ReconcileCommutes(a, b, WithEvent(a, e), WithEvent(b, e), org, ids, viewer);
  }

  lemma GrantsOnlyDependOnMemberships(t: Tables, t': Tables)
    requires t'.memberships == t.memberships && t'.managed == t.managed
    ensures Grants(t') == Grants(t)
  {
  }

  // ---------------------------------------------------------- SCIM user transactions

  /** By SCIM identity, by primary email, or a new user. */
  method ResolveOrCreateUser(t0: Tables, input: NewUser) returns (r: Result<Tables, Failure>, user: Id)
    ensures r.Ok? ==> ResolvesTo(t0, input, user) && r.value == WithUser(t0, input, user)
    ensures r.Err? ==> r.error == AmbiguousEmail && forall u :: !ResolvesTo(t0, input, u)
  {
    var key := ScimKey(input.org, input.externalId);
    user := t0.nextId;
    if input.externalId != "" && key in t0.identities {
      user := t0.identities[key];
    } else {
      var search := EmailToSearch(input);
      if search != "" {
        var found := Rows(UsersWithEmail(t0.users, search));
        if |found| >= 2 {
          assert found[0] in found && found[1] in found && found[0] != found[1];
          return Err(AmbiguousEmail), user;
        }
        if |found| == 1 {
          user := found[0];
          assert EmailMatches(t0, input) == {user} by { OneRow(found, UsersWithEmail(t0.users, search)); }
        }
      }
    }
    r := Ok(WithUser(t0, input, user));
  }

  lemma OneRow<T>(q: seq<T>, s: set<T>)
    requires |q| == 1 && forall x :: x in q <==> x in s
    ensures s == {q[0]}
  {
    assert q[0] in q;
    forall x | x in s ensures x == q[0] { assert x in q; }
  }

  lemma ResolvesToOne(t0: Tables, input: NewUser, user: Id)
    requires ResolvesTo(t0, input, user)
    ensures forall u :: ResolvesTo(t0, input, u) ==> u == user
  {
    forall u: Id | ResolvesTo(t0, input, u) ensures u == user {
      if !KnownByIdentity(t0, input) && EmailMatches(t0, input) != {} {
        assert user in EmailMatches(t0, input) && user in {u};
      }
    }
  }

  lemma NothingToDo(t: Tables, org: string, viewer: Id)
    requires Consistent(t)
    ensures ReconciledTo(t, t, org, {}, viewer)
  {
    hide Consistent, Grants;
  }

  /** Provisioning: the user, their row, and, unless staged, their roles and the audit event. */
  method ProvisionUser(t0: Tables, input: NewUser)
    returns (r: Result<Tables, Failure>, reload: Reload, ghost user: Id, ghost viewer: Id)
    requires Consistent(t0)
    ensures r.Ok? ==> UserCommits(t0, Provision(input, user), r.value, viewer)
    ensures r.Err? ==> forall u :: UserOpAllowed(t0, Provision(input, u)) ==> r.error == NoSuchBuiltinRole && ViewerMissing(t0, input.org)
    ensures r.Ok? ==> reload != NoReload && (reload != Synchronous ==> Grants(t0) <= Grants(r.value))
  {
    hide Consistent, Grants, Reconciled, Stale, WithUser, NameFree, LiveRowFree, ResolvesTo, NeedsViewer, Target, HasRoles, NewRow;
    reload, viewer := NoReload, 0;
    var resolved, u := ResolveOrCreateUser(t0, input);
    user := u;
    if resolved.Err? {
      return Err(AmbiguousEmail), reload, user, viewer;
    }
    ResolvesToOne(t0, input, u);
    var t := resolved.value;
    if !LiveRowFree(t0.rows, input.org, u) {
      return Err(AlreadyProvisioned), reload, user, viewer;
    }
    if !NameFree(t0.rows, input.org, input.userName, None) {
      return Err(NameTaken), reload, user, viewer;
    }
    var id := t.nextId;
    t := t.(rows := t.rows[id := NewRow(input, u)], nextId := id + 1);
    ProvisionedRow(t0, input, u);
    var deleted := 0;
    if input.active {
      var done;
      done, deleted, viewer := ReconcileScimUserRoles(t, id);
      if done.Err? {
        return Err(NoSuchBuiltinRole), reload, user, viewer;
      }
      EventAfterReconcile(t, done.value, input.org, {id}, viewer, Provisioned(id));
      OnlyGrantsUnlessStale(t, done.value, input.org, {id}, viewer);
      EventConsistent(done.value, Provisioned(id));
      t := WithEvent(done.value, Provisioned(id));
    } else {
      NothingToDo(t, input.org, viewer);
    }
    reload := if deleted > 0 then Synchronous else Coalesced;
    r := Ok(t);
  }

  lemma OnlyGrantsUnlessStale(w: Tables, t: Tables, org: string, ids: set<Id>, viewer: Id)
    requires ReconciledTo(w, t, org, ids, viewer)
    ensures Stale(Grants(w), Targets(w, ids, viewer)) == {} ==> Grants(w) <= Grants(t)
  {
    hide Grants, Stale, Targets, Missing;
  }

  /** The tables with the new row, before any role is reconciled. */
  lemma ProvisionedRow(t0: Tables, input: NewUser, user: Id)
    requires Consistent(t0) && ResolvesTo(t0, input, user) && LiveRowFree(t0.rows, input.org, user)
    ensures var t1 := WithUser(t0, input, user); var id := t1.nextId;
      var t := t1.(rows := t1.rows[id := NewRow(input, user)], nextId := id + 1);
      && Consistent(t) && Grants(t) == Grants(t0) && Live(t.rows, id) && t.rows[id].org == input.org
      && (ViewerMissing(t, input.org) <==> ViewerMissing(t0, input.org))
  {
    hide Consistent, Grants, WithUser, ResolvesTo, HasRoles;
    WithUserConsistent(t0, input, user);
    WithUserFrame(t0, input, user);
    NewRowConsistent(WithUser(t0, input, user), NewRow(input, user));
  }

  // ---------------------------------------------- updating and deleting SCIM users

  lemma AccessRemovedIs(t0: Tables, org: string, user: Id, userName: string, t: Tables)
    requires var t1 := DeleteMemberships(t0, MembershipIdsOf(t0.memberships, org, user));
      var t2 := t1.(invitations := InvitationsLeft(t1.invitations, org, EmailOf(t0, user), userName));
      t == if HasMembershipAnywhere(t2.memberships, user) then t2 else WithoutSessions(t2, user)
    ensures t == AccessRemoved(t0, org, user, userName)
  {
    hide InvitationsLeft, HasMembershipAnywhere, MembershipIdsOf;
  }

  /** Takes away everything the user has in the organization. */
  method RemoveOrgMembershipsAndMaybeSessions(t0: Tables, org: string, user: Id, userName: string) returns (t: Tables)
    ensures t == AccessRemoved(t0, org, user, userName)
    ensures Grants(t) == (set g | g in Grants(t0) && !Belongs(g, org, user))
    ensures Uninvited(t, org, EmailOf(t0, user), userName)
    ensures forall i :: i in t0.invitations && !AddressedTo(t0.invitations[i], org, EmailOf(t0, user), userName) ==>
      i in t.invitations && t.invitations[i] == t0.invitations[i]
    ensures if WithoutMembership(Grants(t), user) then LockedOut(t, user) else t.sessions == t0.sessions && t.devices == t0.devices
    ensures forall s :: s in t0.sessions && t0.sessions[s] != user ==> s in t.sessions && t.sessions[s] == t0.sessions[s]
    ensures t == t0.(memberships := t.memberships, managed := t.managed, invitations := t.invitations, sessions := t.sessions, devices := t.devices)
  {
    hide AccessRemoved, Grants, Uninvited, LockedOut, AddressedTo, WithoutMembership, HasMembershipAnywhere, Belongs;
    hide DeleteMemberships, MembershipIdsOf, WithoutSessions, InvitationsLeft;
    t := DeleteMemberships(t0, MembershipIdsOf(t0.memberships, org, user));
    t := t.(invitations := InvitationsLeft(t.invitations, org, EmailOf(t0, user), userName));
    if !HasMembershipAnywhere(t.memberships, user) {
      t := WithoutSessions(t, user);
    }
    AccessRemovedIs(t0, org, user, userName, t);
    NothingBelongsAfter(t0, org, user, userName);
    AccessRemovedInvitations(t0, org, user, userName);
    AccessRemovedSessions(t0, org, user, userName);
    AccessRemovedNoMore(t0, org, user, userName);
  }

  /** Rewriting the row after reconciling is reconciling after rewriting the row. */
  lemma UpdateAfterReconcile(a: Tables, b: Tables, op: UserOp, e: Event, viewer: Id)
    requires op.Update? && Consistent(a) && Live(a.rows, op.id) && SameResource(a.rows[op.id], op.updated)
    requires ReconciledTo(a, b, op.existing.org, {op.id}, viewer)
    ensures ReconciledTo(RowWritten(WithEvent(a, e), op), RowWritten(WithEvent(b, e), op), op.existing.org, {op.id}, viewer)
    ensures Grants(RowWritten(WithEvent(b, e), op)) == Grants(b)
  {
    hide Consistent, Grants, Reconciled, NeedsViewer, Target, HasRoles, WithBuiltins, RowWritten;
    var org, ids := op.existing.org, {op.id};
    EventAfterReconcile(a, b, org, ids, viewer, e);
    EventConsistent(a, e);
    EventConsistent(b, e);
    var c, d := WithEvent(a, e), WithEvent(b, e);
    RowWrittenConsistent(c, op);
    RowWrittenConsistent(d, op);
    RowWrittenFrame(c, op);
    RowWrittenFrame(d, op);
    RowWrittenAlike(c, d, op);
    ReconcileCommutes(c, d, RowWritten(c, op), RowWritten(d, op), org, ids, viewer);
  }

  lemma SamePeopleWritten(c: Tables, d: Tables, op: UserOp)
    requires op.Update? && c.rows == d.rows && c.identities == d.identities && c.users == d.users
    ensures RowWritten(c, op).identities == RowWritten(d, op).identities && RowWritten(c, op).users == RowWritten(d, op).users
  {
    hide BoundIdentities, ProfileUsers;
  }

  lemma RowWrittenAlike(c: Tables, d: Tables, op: UserOp)
    requires op.Update? && SameExceptGrants(c, d)
    ensures SameExceptGrants(RowWritten(c, op), RowWritten(d, op)) && RowWritten(c, op).nextId == c.nextId
  {
    hide RowWritten;
    SamePeopleWritten(c, d, op);
    RowWrittenIs(c, op);
    RowWrittenIs(d, op);
  }

  method UpdateUser(t0: Tables, id: Id, existing: ScimRow, updated: ScimRow, email: string, now: nat)
    returns (r: Result<Tables, Failure>, reload: Reload, ghost viewer: Id)
    requires Consistent(t0) && SameResource(existing, updated)
    requires Live(t0.rows, id) && t0.rows[id].updatedAt == existing.updatedAt ==> t0.rows[id] == existing
    ensures r.Ok? ==> UserCommits(t0, Update(id, existing, updated, email, now), r.value, viewer)
    ensures r.Err? && UserOpAllowed(t0, Update(id, existing, updated, email, now)) ==>
              r.error == NoSuchBuiltinRole && ViewerMissing(t0, existing.org)
    ensures r.Ok? ==> reload != NoReload && (reload != Synchronous ==> Grants(t0) <= Grants(r.value))
  {
    hide Consistent, Grants, Reconciled, Stale, NameFree, NeedsViewer, Target, HasRoles, WithIdentity, WithProfile, AccessRemoved;
    ghost var op := Update(id, existing, updated, email, now);
    reload, viewer := NoReload, 0;
    if !(id in t0.rows && !t0.rows[id].deleted && t0.rows[id].org == existing.org) {
      return Err(NotFound), reload, viewer;
    }
    if t0.rows[id].updatedAt != existing.updatedAt {
      return Err(StaleRead), reload, viewer;
    }
    var t := t0;
    var revokedAccess := false;
    if existing.active && !updated.active {
      revokedAccess := true;
      t := RemoveOrgMembershipsAndMaybeSessions(t, existing.org, existing.user, existing.userName);
      t := WithEvent(t, Deprovisioned(id, Deactivated));
    } else if !existing.active && updated.active {
      var done, deleted;
      done, deleted, viewer := ReconcileScimUserRoles(t, id);
      if done.Err? {
        return Err(NoSuchBuiltinRole), reload, viewer;
      }
      OnlyGrantsUnlessStale(t0, done.value, existing.org, {id}, viewer);
      UpdateAfterReconcile(t0, done.value, op, Provisioned(id), viewer);
      revokedAccess := deleted > 0;
      t := WithEvent(done.value, Provisioned(id));
    }
    if !NameFree(t0.rows, updated.org, updated.userName, Some(id)) {
      return Err(NameTaken), reload, viewer;
    }
    var bound := updated.externalId.Some? && updated.externalId != existing.externalId;
    if bound && !IdentityFree(t0.identities, ScimKey(updated.org, updated.externalId.value), updated.user) {
      return Err(IdentityTaken), reload, viewer;
    }
    t := WriteRow(t, id, existing, updated, email, now);
    ghost var w := UserWrite(t0, op);
    UserWriteConsistent(t0, op);
    if !Activates(op) {
      assert t == w;
      NothingToDo(w, existing.org, viewer);
    }
    r := Ok(t);
    reload := if revokedAccess then Synchronous else Coalesced;
  }

  /** The row, a newly bound external id, and, for the sole governor, the shared profile. */
  method WriteRow(t0: Tables, id: Id, existing: ScimRow, updated: ScimRow, email: string, now: nat) returns (t: Tables)
    ensures t == RowWritten(t0, Update(id, existing, updated, email, now))
  {
    hide SoleGovernor, ScimKey;
    var rows, identities, users := t0.rows[id := updated.(updatedAt := now)], t0.identities, t0.users;
    if updated.externalId.Some? && updated.externalId != existing.externalId {
      identities := identities[ScimKey(updated.org, updated.externalId.value) := updated.user];
    }
    if email != "" {
      var governing := Rows(set k: Id | k in rows && Live(rows, k) && rows[k].user == updated.user && k != id);
      GovernedBySole(rows, id, updated.user, governing);
      if |governing| == 0 {
        users := users[updated.user := User(Some(email))];
      }
    }
    ghost var op := Update(id, existing, updated, email, now);
    assert identities == BoundIdentities(t0.identities, op) && users == ProfileUsers(t0.users, rows, id, updated.user, email);
    hide BoundIdentities, ProfileUsers;
    t := t0.(rows := rows, identities := identities, users := users);
  }

  lemma GovernedBySole(rows: map<Id, ScimRow>, id: Id, user: Id, governing: seq<Id>)
    requires forall k :: k in governing <==> k in rows && Live(rows, k) && rows[k].user == user && k != id
    ensures |governing| == 0 <==> SoleGovernor(rows, id, user)
  {
    if |governing| > 0 {
      assert governing[0] in governing;
    }
    if !SoleGovernor(rows, id, user) {
      var k :| k in rows && Live(rows, k) && rows[k].user == user && k != id;
      assert k in governing;
    }
  }

  method DeleteUser(t0: Tables, id: Id, existing: ScimRow, now: nat) returns (r: Result<Tables, Failure>, reload: Reload)
    requires Consistent(t0)
    requires Live(t0.rows, id) && t0.rows[id].updatedAt == existing.updatedAt ==> t0.rows[id] == existing
    ensures r.Ok? ==> forall viewer :: UserCommits(t0, Delete(id, existing, now), r.value, viewer)
    ensures r.Err? <==> !UserOpAllowed(t0, Delete(id, existing, now))
    ensures r.Ok? ==> reload == Synchronous
  {
    hide Consistent, Grants, Reconciled, AccessRemoved, WithoutMember;
    reload := NoReload;
    if !(id in t0.rows && !t0.rows[id].deleted && t0.rows[id].org == existing.org) {
      return Err(NotFound), reload;
    }
    if t0.rows[id].updatedAt != existing.updatedAt {
      return Err(StaleRead), reload;
    }
    var t := RemoveOrgMembershipsAndMaybeSessions(t0, existing.org, existing.user, existing.userName);
    t := t.(rows := t.rows[id := existing.(active := false, deleted := true, updatedAt := now)],
            groups := WithoutMember(t.groups, id));
    t := WithEvent(t, Deprovisioned(id, Deleted));
    UserWriteConsistent(t0, Delete(id, existing, now));
    forall viewer: Id ensures ReconciledTo(t, t, existing.org, {}, viewer) {
      NothingToDo(t, existing.org, viewer);
    }
    r, reload := Ok(t), Synchronous;
  }

  // ------------------------------------------------------------ groups and mappings

  /** Writing a group or mapping and reconciling everyone concerned; always a synchronous reload. */
  method CommitGroupChange(t0: Tables, op: GroupOp, concerned: seq<Id>)
    returns (r: Result<Tables, Failure>, ghost viewer: Id)
    requires Consistent(t0) && GroupOpAllowed(t0, op) && AsSet(concerned) == Concerned(t0, op)
    ensures r.Ok? ==> GroupCommits(t0, op, r.value, viewer)
    ensures r.Err? ==> r.error == NoSuchBuiltinRole && ViewerMissing(t0, GroupOpOrg(t0, op))
  {
    hide Consistent, Grants, Reconciled, GroupOpAllowed, Concerned, NeedsViewer, Target, HasRoles;
    GroupWriteConsistent(t0, op);
    var t := GroupWrite(t0, op);
    var done;
    done, viewer := ReconcileScimUsersById(t, GroupOpOrg(t0, op), concerned);
    r := if done.Ok? then Ok(done.value) else Err(NoSuchBuiltinRole);
  }

  /** A group as a request names it; repeated members collapse. */
  function Saving(id: Id, org: string, name: string, externalId: Option<string>, members: seq<Id>): GroupOp {
    SaveGroup(id, Group(org, name, externalId, AsSet(members)))
  }

  method CreateGroup(t0: Tables, org: string, name: string, externalId: Option<string>, members: seq<Id>)
    returns (r: Result<Tables, Failure>, ghost viewer: Id)
    requires Consistent(t0)
    ensures r.Ok? ==> GroupCommits(t0, Saving(t0.nextId, org, name, externalId, members), r.value, viewer)
    ensures r.Err? && GroupOpAllowed(t0, Saving(t0.nextId, org, name, externalId, members)) ==>
              r.error == NoSuchBuiltinRole && ViewerMissing(t0, org)
  {
    hide Consistent, GroupNameFree, LiveMembers, ReconciledTo, HasRoles;
    viewer := 0;
    var id, group := t0.nextId, Group(org, name, externalId, AsSet(members));
    NextIdUnused(t0);
    if !GroupNameFree(t0.groups, id, group) {
      return Err(NameTaken), viewer;
    }
    if !LiveMembers(t0.rows, group) {
      return Err(UnknownMembers), viewer;
    }
    r, viewer := CommitGroupChange(t0, SaveGroup(id, group), members);
  }

  lemma NextIdUnused(t: Tables)
    requires Consistent(t)
    ensures t.nextId !in t.groups
  {
  }

  /** PUT, and PATCH after its operations were folded over the stored group. */
  method SaveExistingGroup(t0: Tables, id: Id, name: string, externalId: Option<string>, members: seq<Id>)
    returns (r: Result<Tables, Failure>, ghost viewer: Id)
    requires Consistent(t0) && id in t0.groups
    ensures r.Ok? ==> GroupCommits(t0, Saving(id, t0.groups[id].org, name, externalId, members), r.value, viewer)
    ensures r.Err? && GroupOpAllowed(t0, Saving(id, t0.groups[id].org, name, externalId, members)) ==>
              r.error == NoSuchBuiltinRole && ViewerMissing(t0, t0.groups[id].org)
  {
    hide Consistent, GroupNameFree, LiveMembers, ReconciledTo, HasRoles;
    viewer := 0;
    var group := Group(t0.groups[id].org, name, externalId, AsSet(members));
    if !GroupNameFree(t0.groups, id, group) {
      return Err(NameTaken), viewer;
    }
    if !LiveMembers(t0.rows, group) {
      return Err(UnknownMembers), viewer;
    }
    var existing := Rows(t0.groups[id].members);
    assert AsSet(existing + members) == t0.groups[id].members + group.members;
    r, viewer := CommitGroupChange(t0, SaveGroup(id, group), existing + members);
  }

  method RemoveGroup(t0: Tables, org: string, id: Id) returns (r: Result<Tables, Failure>, ghost viewer: Id)
    requires Consistent(t0)
    ensures r.Ok? ==> id in t0.groups && t0.groups[id].org == org && GroupCommits(t0, DeleteGroup(id), r.value, viewer)
    ensures r == Err(NotFound) <==> !(id in t0.groups && t0.groups[id].org == org)
    ensures r.Err? && r.error != NotFound ==> r.error == NoSuchBuiltinRole && ViewerMissing(t0, org)
  {
    hide Consistent, ReconciledTo, HasRoles;
    viewer := 0;
    if !(id in t0.groups && t0.groups[id].org == org) {
      return Err(NotFound), viewer;
    }
    var members := Rows(t0.groups[id].members);
    assert AsSet(members) == t0.groups[id].members;
    r, viewer := CommitGroupChange(t0, DeleteGroup(id), members);
  }

  method UpsertMapping(t0: Tables, org: string, name: string, role: Id) returns (r: Result<Tables, Failure>, ghost viewer: Id)
    requires Consistent(t0)
    ensures r.Ok? ==> GroupCommits(t0, SaveMapping(org, name, role), r.value, viewer)
    ensures r == Err(RoleNotFound) <==> !GroupOpAllowed(t0, SaveMapping(org, name, role))
    ensures r.Err? && r.error != RoleNotFound ==> r.error == NoSuchBuiltinRole && ViewerMissing(t0, org)
  {
    hide Consistent, ReconciledTo, HasRoles;
    viewer := 0;
    if !(role in t0.roles && t0.roles[role].org == org) {
      return Err(RoleNotFound), viewer;
    }
    var members := Rows(MembersNamed(t0.groups, org, name));
    assert AsSet(members) == MembersNamed(t0.groups, org, name);
    r, viewer := CommitGroupChange(t0, SaveMapping(org, name, role), members);
  }

  method RemoveMapping(t0: Tables, org: string, name: string) returns (r: Result<Tables, Failure>, ghost viewer: Id)
    requires Consistent(t0)
    ensures r.Ok? ==> GroupCommits(t0, DeleteMapping(org, name), r.value, viewer)
    ensures r == Err(NotFound) <==> !GroupOpAllowed(t0, DeleteMapping(org, name))
    ensures r.Err? && r.error != NotFound ==> r.error == NoSuchBuiltinRole && ViewerMissing(t0, org)
  {
    hide Consistent, ReconciledTo, HasRoles;
    viewer := 0;
    if (org, Lower(name)) !in t0.mappings {
      return Err(NotFound), viewer;
    }
    var members := Rows(MembersNamed(t0.groups, org, name));
    assert AsSet(members) == MembersNamed(t0.groups, org, name);
    r, viewer := CommitGroupChange(t0, DeleteMapping(org, name), members);
  }
}
