/**
 * The transactions on the SCIM directory and on memberships, as specifications:
 * when a transaction is allowed, what it writes, and which SCIM users it then
 * reconciles.
 */
module ScimOperations {
  import opened Common
  import opened ScimTables
  import opened ScimReconcile

  // ------------------------------------------------------------------- governance

  predicate IsRowOf(row: ScimRow, org: string, user: Id) {
    row.org == org && row.user == user
  }

  predicate Governed(rows: map<Id, ScimRow>, org: string, user: Id) {
    exists id :: id in rows && IsRowOf(rows[id], org, user)
  }

  predicate HasActiveRow(rows: map<Id, ScimRow>, org: string, user: Id) {
    exists id :: id in rows && Active(rows, id) && IsRowOf(rows[id], org, user)
  }

  /** The organization's IDP withdrew the user: deactivated, or only tombstones are left. */
  predicate Withdrawn(rows: map<Id, ScimRow>, org: string, user: Id) {
    Governed(rows, org, user) && !HasActiveRow(rows, org, user)
  }

  predicate HasMembership(memberships: map<Id, Membership>, org: string, user: Id) {
    exists m :: m in memberships && memberships[m].org == org && memberships[m].user == user
  }

  predicate HasRoleMembership(memberships: map<Id, Membership>, org: string, user: Id) {
    exists m :: m in memberships && memberships[m].org == org && memberships[m].user == user && memberships[m].subject.RoleSubject?
  }

  /** Nobody has the user's name in the organization, except row `self` itself. */
  predicate NameFree(rows: map<Id, ScimRow>, org: string, userName: string, self: Option<Id>) {
    forall id :: id in rows && Live(rows, id) && rows[id].org == org && Lower(rows[id].userName) == Lower(userName) ==> self == Some(id)
  }

  predicate LiveRowFree(rows: map<Id, ScimRow>, org: string, user: Id) {
    forall id :: id in rows && Live(rows, id) ==> !IsRowOf(rows[id], org, user)
  }

  // ------------------------------------------------------------------ global users

  datatype NewUser = NewUser(org: string, userName: string, externalId: string, email: string, active: bool, now: nat)

  function ScimKey(org: string, externalId: string): Identity {
    Identity(ScimIdentity, org + ":" + externalId)
  }

  function EmailToSearch(input: NewUser): string {
    if input.email != "" then input.email else if '@' in input.userName then input.userName else ""
  }

  predicate HasEmail(user: User, email: string) {
    user.email.Some? && Lower(user.email.value) == Lower(email)
  }

  function UsersWithEmail(users: map<Id, User>, email: string): set<Id> {
    set u | u in users && HasEmail(users[u], email)
  }

  predicate KnownByIdentity(t: Tables, input: NewUser) {
    input.externalId != "" && ScimKey(input.org, input.externalId) in t.identities
  }

  function EmailMatches(t: Tables, input: NewUser): set<Id> {
    if EmailToSearch(input) == "" then {} else UsersWithEmail(t.users, EmailToSearch(input))
  }

  /** By SCIM identity, else by an unambiguous email, else a new user. */
  predicate ResolvesTo(t: Tables, input: NewUser, user: Id) {
    if KnownByIdentity(t, input) then user == t.identities[ScimKey(input.org, input.externalId)]
    else if EmailMatches(t, input) != {} then EmailMatches(t, input) == {user}
    else user == t.nextId
  }

  /** The tables with the resolved user stored and their SCIM identity attached. */
  function WithUser(t: Tables, input: NewUser, user: Id): Tables {
    var email := if EmailToSearch(input) == "" then None else Some(EmailToSearch(input));
    t.(users := if user in t.users then t.users else t.users[user := User(email)],
       identities := if input.externalId == "" || KnownByIdentity(t, input) then t.identities
                     else t.identities[ScimKey(input.org, input.externalId) := user],
       nextId := if user in t.users then t.nextId else t.nextId + 1)
  }

  // -------------------------------------------------------------- withdrawing access

  function MembershipIdsOf(memberships: map<Id, Membership>, org: string, user: Id): set<Id> {
    set m | m in memberships && memberships[m].org == org && memberships[m].user == user
  }

  /** An invitation the user could redeem by one of their known addresses. */
  predicate AddressedTo(invitation: Invitation, org: string, email: Option<string>, userName: string) {
    && invitation.org == org
    && ((email.Some? && Lower(invitation.email) == Lower(email.value))
        || ('@' in userName && userName[0] != '@' && Lower(invitation.email) == Lower(userName)))
  }

  predicate HasMembershipAnywhere(memberships: map<Id, Membership>, user: Id) {
    exists m :: m in memberships && memberships[m].user == user
  }

  function EmailOf(t: Tables, user: Id): Option<string> {
    if user in t.users then t.users[user].email else None
  }

  function InvitationsLeft(invitations: map<Id, Invitation>, org: string, email: Option<string>, userName: string): map<Id, Invitation> {
    map i | i in invitations && !AddressedTo(invitations[i], org, email, userName) :: invitations[i]
  }

  /** Every membership in the organization, matching invitations, and perhaps all sessions, go. */
  function AccessRemoved(t: Tables, org: string, user: Id, userName: string): Tables {
    var t1 := DeleteMemberships(t, MembershipIdsOf(t.memberships, org, user));
    var t2 := t1.(invitations := InvitationsLeft(t.invitations, org, EmailOf(t, user), userName));
    if HasMembershipAnywhere(t2.memberships, user) then t2 else WithoutSessions(t2, user)
  }

  function WithoutSessions(t: Tables, user: Id): Tables {
    t.(sessions := map s | s in t.sessions && t.sessions[s] != user :: t.sessions[s],
       devices := map d | d in t.devices && t.devices[d] != Some(user) :: t.devices[d])
  }

  /** Nothing a user could get back in with. */
  predicate LockedOut(t: Tables, user: Id) {
    && (forall s :: s in t.sessions ==> t.sessions[s] != user)
    && (forall d :: d in t.devices ==> t.devices[d] != Some(user))
  }

  predicate Uninvited(t: Tables, org: string, email: Option<string>, userName: string) {
    forall i :: i in t.invitations ==> !AddressedTo(t.invitations[i], org, email, userName)
  }

  predicate WithoutMembership(grants: set<Grant>, user: Id) {
    forall g :: g in grants ==> g.membership.user != user
  }

  lemma WithdrawnMemberships(t: Tables, org: string, user: Id, userName: string)
    ensures var w := AccessRemoved(t, org, user, userName); var gone := MembershipIdsOf(t.memberships, org, user);
      w.memberships == t.memberships - gone && w.managed == t.managed - gone
  {
    hide InvitationsLeft, MembershipIdsOf, HasMembershipAnywhere;
  }

  /** Exactly the user's grants in the organization are gone, whatever the tables hold. */
  lemma NothingBelongsAfter(t: Tables, org: string, user: Id, userName: string)
    ensures var w := AccessRemoved(t, org, user, userName);
      && Grants(w) == (set g | g in Grants(t) && !Belongs(g, org, user))
      && (WithoutMembership(Grants(w), user) <==> !HasMembershipAnywhere(w.memberships, user))
  {
    hide AddressedTo, AccessRemoved;
    var w := AccessRemoved(t, org, user, userName);
    WithdrawnMemberships(t, org, user, userName);
    forall g ensures g in Grants(w) <==> g in Grants(t) && !Belongs(g, org, user) {
      if g in Grants(w) {
        var id :| id in w.memberships && g == Grant(w.memberships[id], OwnerOf(w.managed, id));
        assert g == GrantOf(t, id);
      }
      if g in Grants(t) && !Belongs(g, org, user) {
        var id :| id in t.memberships && g == Grant(t.memberships[id], OwnerOf(t.managed, id));
        assert id in w.memberships && g == GrantOf(w, id);
      }
    }
    if m :| m in w.memberships && w.memberships[m].user == user {
      assert GrantOf(w, m) in Grants(w);
    }
  }

  /** Of the invitations exactly those addressed to the user go. */
  lemma AccessRemovedInvitations(t: Tables, org: string, user: Id, userName: string)
    ensures var w := AccessRemoved(t, org, user, userName);
      && Uninvited(w, org, EmailOf(t, user), userName)
      && (forall i :: i in t.invitations && !AddressedTo(t.invitations[i], org, EmailOf(t, user), userName) ==>
            i in w.invitations && w.invitations[i] == t.invitations[i])
  {
    hide AddressedTo, MembershipIdsOf, HasMembershipAnywhere, DeleteMemberships, EmailOf;
    assert AccessRemoved(t, org, user, userName).invitations == InvitationsLeft(t.invitations, org, EmailOf(t, user), userName);
    hide AccessRemoved;
  }

  /** At the last membership the user's sessions and devices go, and nobody else's. */
  lemma AccessRemovedSessions(t: Tables, org: string, user: Id, userName: string)
    ensures var w := AccessRemoved(t, org, user, userName);
      && (if HasMembershipAnywhere(w.memberships, user) then w.sessions == t.sessions && w.devices == t.devices else LockedOut(w, user))
      && (forall s :: s in t.sessions && t.sessions[s] != user ==> s in w.sessions && w.sessions[s] == t.sessions[s])
  {
    hide InvitationsLeft, MembershipIdsOf, HasMembershipAnywhere;
  }

  lemma AccessRemovedNoMore(t: Tables, org: string, user: Id, userName: string)
    ensures var w := AccessRemoved(t, org, user, userName);
      w == t.(memberships := w.memberships, managed := w.managed, invitations := w.invitations, sessions := w.sessions, devices := w.devices)
  {
    hide InvitationsLeft, MembershipIdsOf, HasMembershipAnywhere, EmailOf;
  }

  /** After the memberships only invitations, sessions and devices go. */
  lemma AccessRemovedAfterDelete(t: Tables, org: string, user: Id, userName: string)
    ensures var w := AccessRemoved(t, org, user, userName); var t1 := DeleteMemberships(t, MembershipIdsOf(t.memberships, org, user));
      w == t1.(invitations := w.invitations, sessions := w.sessions, devices := w.devices) && w.sessions.Keys <= t1.sessions.Keys
  {
    hide InvitationsLeft, MembershipIdsOf, HasMembershipAnywhere, DeleteMemberships, EmailOf;
  }

  lemma AccessRemovedGrants(t: Tables, org: string, user: Id, userName: string)
    requires Consistent(t)
    ensures var t' := AccessRemoved(t, org, user, userName);
      && Consistent(t') && t' == t.(memberships := t'.memberships, managed := t'.managed, invitations := t'.invitations,
                                    sessions := t'.sessions, devices := t'.devices)
      && Grants(t') == (set g | g in Grants(t) && !Belongs(g, org, user))
  {
    hide Consistent, Grants, AccessRemoved, DeleteMemberships, MembershipIdsOf;
    var gone := MembershipIdsOf(t.memberships, org, user);
    DeleteMembershipsConsistent(t, gone);
    AccessRemovedAfterDelete(t, org, user, userName);
    OtherTablesDoNotMatter(DeleteMemberships(t, gone), AccessRemoved(t, org, user, userName));
    AccessRemovedNoMore(t, org, user, userName);
    NothingBelongsAfter(t, org, user, userName);
  }

  lemma ConsistentUnique(t: Tables)
    requires Consistent(t)
    ensures UniqueMemberships(t.memberships) && UniqueLiveRows(t.rows)
  {
  }

  lemma OtherTablesDoNotMatter(t: Tables, t': Tables)
    requires Consistent(t) && t' == t.(invitations := t'.invitations, sessions := t'.sessions, devices := t'.devices, outbox := t'.outbox)
    requires t'.sessions.Keys <= t.sessions.Keys
    ensures Consistent(t') && Grants(t') == Grants(t)
  {
  }

  lemma GrantsOfUser(t: Tables, org: string, user: Id)
    ensures Grants(t) - GrantsOf(t, MembershipIdsOf(t.memberships, org, user)) == (set g | g in Grants(t) && !Belongs(g, org, user))
  {
    var ids := MembershipIdsOf(t.memberships, org, user);
    forall g | g in Grants(t) ensures g in GrantsOf(t, ids) <==> Belongs(g, org, user) {
      var m :| m in t.memberships && g == Grant(t.memberships[m], OwnerOf(t.managed, m));
      assert Belongs(g, org, user) ==> m in ids;
    }
  }

  // --------------------------------------------------------------- SCIM user writes

  datatype UserOp =
    | Provision(input: NewUser, user: Id)
    | Update(id: Id, existing: ScimRow, updated: ScimRow, email: string, now: nat)
    | Delete(id: Id, existing: ScimRow, now: nat)

  function OptionalText(s: string): Option<string> {
    if s == "" then None else Some(s)
  }

  function NewRow(input: NewUser, user: Id): ScimRow {
    ScimRow(input.org, user, input.userName, OptionalText(input.externalId), input.active, false, input.now)
  }

  predicate Deactivates(op: UserOp) {
    op.Update? && op.existing.active && !op.updated.active
  }

  predicate Activates(op: UserOp) {
    op.Update? && !op.existing.active && op.updated.active
  }

  /** A changed external id is bound to the user, unless it already belongs to someone else. */
  predicate BindsIdentity(op: UserOp) {
    op.Update? && op.updated.externalId.Some? && op.updated.externalId != op.existing.externalId
  }

  predicate RowUnchangedSince(t: Tables, id: Id, existing: ScimRow) {
    Live(t.rows, id) && t.rows[id] == existing
  }

  /** PUT and PATCH start from the row that was read: organization and user never change. */
  predicate SameResource(existing: ScimRow, updated: ScimRow) {
    updated.org == existing.org && updated.user == existing.user && updated.deleted == existing.deleted
  }

  predicate IdentityFree(identities: map<Identity, Id>, key: Identity, user: Id) {
    key in identities ==> identities[key] == user
  }

  predicate UserOpAllowed(t: Tables, op: UserOp) {
    match op
    case Provision(input, user) =>
      && ResolvesTo(t, input, user) && LiveRowFree(t.rows, input.org, user)
      && NameFree(t.rows, input.org, input.userName, None)
    case Update(id, existing, updated, email, now) =>
      && RowUnchangedSince(t, id, existing) && SameResource(existing, updated)
      && NameFree(t.rows, updated.org, updated.userName, Some(id))
      && (BindsIdentity(op) ==> IdentityFree(t.identities, ScimKey(updated.org, updated.externalId.value), updated.user))
    case Delete(id, existing, now) => RowUnchangedSince(t, id, existing)
  }

  /** Only the organization with the sole live record of a user may write the shared profile. */
  predicate SoleGovernor(rows: map<Id, ScimRow>, id: Id, user: Id) {
    forall k :: k in rows && Live(rows, k) && rows[k].user == user ==> k == id
  }

  function ProfileUsers(users: map<Id, User>, rows: map<Id, ScimRow>, id: Id, user: Id, email: string): map<Id, User> {
    if email != "" && SoleGovernor(rows, id, user) then users[user := User(Some(email))] else users
  }

  function WithProfile(t: Tables, id: Id, user: Id, email: string): Tables {
    t.(users := ProfileUsers(t.users, t.rows, id, user, email))
  }

  function WithoutMember(groups: map<Id, Group>, id: Id): map<Id, Group> {
    map g | g in groups :: groups[g].(members := groups[g].members - {id})
  }

  function WithEvent(t: Tables, event: Event): Tables {
    t.(outbox := t.outbox + [event])
  }

  function BoundIdentities(identities: map<Identity, Id>, op: UserOp): map<Identity, Id> {
    if BindsIdentity(op) then identities[ScimKey(op.updated.org, op.updated.externalId.value) := op.updated.user] else identities
  }

  function WithIdentity(t: Tables, op: UserOp): Tables {
    t.(identities := BoundIdentities(t.identities, op))
  }

  function RowWritten(t: Tables, op: UserOp): Tables
    requires op.Update?
  {
    var t1 := t.(rows := t.rows[op.id := op.updated.(updatedAt := op.now)]);
    WithProfile(WithIdentity(t1, op), op.id, op.updated.user, op.email)
  }

  /** What a SCIM user transaction writes, apart from the memberships it reconciles. */
  function UserWrite(t: Tables, op: UserOp): Tables {
    match op
    case Provision(input, user) =>
      var t1 := WithUser(t, input, user);
      var t2 := t1.(rows := t1.rows[t1.nextId := NewRow(input, user)], nextId := t1.nextId + 1);
      if input.active then WithEvent(t2, Provisioned(t1.nextId)) else t2
    case Update(id, existing, updated, email, now) =>
      if Deactivates(op) then
        var t1 := AccessRemoved(t, existing.org, existing.user, existing.userName);
        RowWritten(WithEvent(t1, Deprovisioned(id, Deactivated)), op)
      else if Activates(op) then RowWritten(WithEvent(t, Provisioned(id)), op)
      else RowWritten(t, op)
    case Delete(id, existing, now) =>
      var t1 := AccessRemoved(t, existing.org, existing.user, existing.userName);
      WithEvent(t1.(rows := t1.rows[id := existing.(active := false, deleted := true, updatedAt := now)],
                    groups := WithoutMember(t1.groups, id)), Deprovisioned(id, Deleted))
  }

  /** The row a provisioning creates. */
  function NewRowId(t: Tables, input: NewUser, user: Id): Id {
    WithUser(t, input, user).nextId
  }

  function UserReconciles(t: Tables, op: UserOp): set<Id> {
    match op
    case Provision(input, user) => if input.active then {NewRowId(t, input, user)} else {}
    case Update(id, _, _, _, _) => if Activates(op) then {id} else {}
    case Delete(_, _, _) => {}
  }

  function UserOpOrg(op: UserOp): string {
    if op.Provision? then op.input.org else op.existing.org
  }

  /** A committed SCIM user transaction. */
  ghost predicate UserCommits(t: Tables, op: UserOp, t': Tables, viewer: Id) {
    UserOpAllowed(t, op) && ReconciledTo(UserWrite(t, op), t', UserOpOrg(op), UserReconciles(t, op), viewer)
  }

  // ------------------------------------------------- writes keep the tables consistent

  lemma WithUserConsistent(t: Tables, input: NewUser, user: Id)
    requires Consistent(t) && ResolvesTo(t, input, user)
    ensures var t' := WithUser(t, input, user);
      Consistent(t') && user in t'.users && Grants(t') == Grants(t)
  {
    if !KnownByIdentity(t, input) && EmailMatches(t, input) != {} {
      assert user in EmailMatches(t, input);
    }
  }

  lemma NewRowConsistent(t: Tables, row: ScimRow)
    requires Consistent(t) && row.user in t.users && !row.deleted && LiveRowFree(t.rows, row.org, row.user)
    ensures var t' := t.(rows := t.rows[t.nextId := row], nextId := t.nextId + 1);
      Consistent(t') && Grants(t') == Grants(t)
  {
    hide UniqueMemberships, MappingsWellFormed, UniqueRoleNames, Grants, UniqueLiveRows, ManagedShape, GroupsWellFormed;
    var rows := t.rows[t.nextId := row];
    SameMembershipsSameGrants(t, t.(rows := rows, nextId := t.nextId + 1));
    NewRowUnique(t.rows, t.nextId, row);
    ManagedShapeKept(t.memberships, t.managed, t.rows, rows);
    GroupsKept(t.groups, t.rows, rows);
  }

  lemma SameMembershipsSameGrants(t: Tables, t': Tables)
    requires t'.memberships == t.memberships && t'.managed == t.managed
    ensures Grants(t') == Grants(t)
  {
  }

  lemma NewRowUnique(rows: map<Id, ScimRow>, id: Id, row: ScimRow)
    requires UniqueLiveRows(rows) && id !in rows && LiveRowFree(rows, row.org, row.user)
    ensures UniqueLiveRows(rows[id := row])
  {
  }

  /** No row came to life or moved. */
  lemma LiveRowsKept(rows: map<Id, ScimRow>, rows': map<Id, ScimRow>)
    requires UniqueLiveRows(rows)
    requires forall k :: Live(rows', k) ==> Live(rows, k) && rows'[k].org == rows[k].org && rows'[k].user == rows[k].user
    ensures UniqueLiveRows(rows')
  {
    forall i, j | i in rows' && j in rows' && SameLiveUser(rows'[i], rows'[j]) ensures i == j {
      assert Live(rows', i) && Live(rows', j);
      assert SameLiveUser(rows[i], rows[j]);
    }
  }

  lemma ManagedShapeKept(memberships: map<Id, Membership>, managed: map<Id, Id>, rows: map<Id, ScimRow>, rows': map<Id, ScimRow>)
    requires ManagedShape(memberships, managed, rows)
    requires forall k :: k in rows ==> k in rows' && rows'[k].org == rows[k].org && rows'[k].user == rows[k].user
    ensures ManagedShape(memberships, managed, rows')
  {
    forall m | m in managed ensures m in memberships && ManagedFor(memberships[m], managed[m], rows') {
      assert ManagedFor(memberships[m], managed[m], rows);
    }
  }

  lemma GroupsKept(groups: map<Id, Group>, rows: map<Id, ScimRow>, rows': map<Id, ScimRow>)
    requires GroupsWellFormed(groups, rows)
    requires forall k :: Live(rows, k) ==> Live(rows', k) && rows'[k].org == rows[k].org
    ensures GroupsWellFormed(groups, rows')
  {
  }

  /** Rewriting a live row's own columns. */
  lemma RowRewriteConsistent(t: Tables, id: Id, row: ScimRow)
    requires Consistent(t) && Live(t.rows, id) && SameResource(t.rows[id], row)
    ensures var t' := t.(rows := t.rows[id := row]); Consistent(t') && Grants(t') == Grants(t)
  {
    hide UniqueMemberships, MappingsWellFormed, UniqueRoleNames, Grants, UniqueLiveRows, ManagedShape, GroupsWellFormed;
    var rows := t.rows[id := row];
    SameMembershipsSameGrants(t, t.(rows := rows));
    LiveRowsKept(t.rows, rows);
    ManagedShapeKept(t.memberships, t.managed, t.rows, rows);
    GroupsKept(t.groups, t.rows, rows);
  }

  lemma UsersAndIdentitiesConsistent(t: Tables, t': Tables)
    requires Consistent(t) && t' == t.(users := t'.users, identities := t'.identities)
    requires t'.users.Keys == t.users.Keys && forall k :: k in t'.identities ==> t'.identities[k] in t.users
    ensures Consistent(t') && Grants(t') == Grants(t)
  {
  }

  lemma WithIdentityIs(t: Tables, op: UserOp)
    requires op.Update?
    ensures var w := WithIdentity(t, op);
      && w == t.(identities := w.identities)
      && forall k :: k in w.identities ==> w.identities[k] == op.updated.user || (k in t.identities && w.identities[k] == t.identities[k])
  {
    hide BindsIdentity, ScimKey;
    var w := WithIdentity(t, op);
    assert w == t.(identities := w.identities);
  }

  lemma WithProfileIs(t: Tables, id: Id, user: Id, email: string)
    ensures var w := WithProfile(t, id, user, email);
      w == t.(users := w.users) && (user in t.users ==> w.users.Keys == t.users.Keys)
  {
    hide SoleGovernor;
    var w := WithProfile(t, id, user, email);
    assert w == t.(users := w.users);
  }

  /** Besides the row only identities and users are written. */
  lemma RowWrittenIs(t: Tables, op: UserOp)
    requires op.Update?
    ensures var w := RowWritten(t, op);
      && w == t.(rows := t.rows[op.id := op.updated.(updatedAt := op.now)], identities := w.identities, users := w.users)
      && (op.updated.user in t.users ==> w.users.Keys == t.users.Keys)
      && (forall k :: k in w.identities ==> w.identities[k] == op.updated.user || (k in t.identities && w.identities[k] == t.identities[k]))
  {
    hide WithIdentity, WithProfile;
    var t1 := t.(rows := t.rows[op.id := op.updated.(updatedAt := op.now)]);
    WithIdentityIs(t1, op);
    WithProfileIs(WithIdentity(t1, op), op.id, op.updated.user, op.email);
  }

  lemma RowWrittenConsistent(t: Tables, op: UserOp)
    requires Consistent(t) && op.Update? && Live(t.rows, op.id) && SameResource(t.rows[op.id], op.updated)
    ensures Consistent(RowWritten(t, op)) && Grants(RowWritten(t, op)) == Grants(t)
  {
    hide Grants, UniqueMemberships, UniqueLiveRows, ManagedShape, GroupsWellFormed, MappingsWellFormed, IdsBelow;
    var row := op.updated.(updatedAt := op.now);
    var t1 := t.(rows := t.rows[op.id := row]);
    RowRewriteConsistent(t, op.id, row);
    assert op.updated.user in t1.users;
    RowWrittenIs(t, op);
    hide RowWritten;
    UsersAndIdentitiesConsistent(t1, RowWritten(t, op));
  }

  /** Deleting the row: nobody manages memberships for it any more, and no group lists it. */
  lemma TombstoneConsistent(t: Tables, id: Id, row: ScimRow)
    requires Consistent(t) && Live(t.rows, id) && row.deleted && row.org == t.rows[id].org && row.user == t.rows[id].user
    ensures var t' := t.(rows := t.rows[id := row], groups := WithoutMember(t.groups, id));
      Consistent(t') && Grants(t') == Grants(t)
  {
    hide UniqueMemberships, MappingsWellFormed, UniqueRoleNames, Grants, UniqueLiveRows, ManagedShape, GroupsWellFormed;
    var rows := t.rows[id := row];
    SameMembershipsSameGrants(t, t.(rows := rows, groups := WithoutMember(t.groups, id)));
    LiveRowsKept(t.rows, rows);
    ManagedShapeKept(t.memberships, t.managed, t.rows, rows);
    GroupsWithout(t.groups, t.rows, id, row);
  }

  lemma GroupsWithout(groups: map<Id, Group>, rows: map<Id, ScimRow>, id: Id, row: ScimRow)
    requires GroupsWellFormed(groups, rows)
    ensures GroupsWellFormed(WithoutMember(groups, id), rows[id := row])
  {
    var left := WithoutMember(groups, id);
    forall g, h | g in left && h in left && SameName(left[g], left[h]) ensures g == h {
      assert SameName(groups[g], groups[h]);
    }
  }

  lemma EventConsistent(t: Tables, event: Event)
    requires Consistent(t)
    ensures Consistent(WithEvent(t, event)) && Grants(WithEvent(t, event)) == Grants(t)
  {
  }

  /** The grants a SCIM user transaction starts reconciling from. */
  function UserGrants(t: Tables, op: UserOp): set<Grant> {
    if Deactivates(op) || op.Delete? then set g | g in Grants(t) && !Belongs(g, op.existing.org, op.existing.user) else Grants(t)
  }

  lemma UserWriteConsistent(t: Tables, op: UserOp)
    requires Consistent(t) && UserOpAllowed(t, op)
    ensures Consistent(UserWrite(t, op)) && Grants(UserWrite(t, op)) == UserGrants(t, op)
  {
    hide Consistent, Grants;
    match op
    case Provision(input, user) =>
      WithUserConsistent(t, input, user);
      var t1 := WithUser(t, input, user);
      NewRowConsistent(t1, NewRow(input, user));
      EventConsistent(t1.(rows := t1.rows[t1.nextId := NewRow(input, user)], nextId := t1.nextId + 1), Provisioned(t1.nextId));
    case Update(id, existing, updated, email, now) =>
      AccessRemovedGrants(t, existing.org, existing.user, existing.userName);
      EventConsistent(AccessRemoved(t, existing.org, existing.user, existing.userName), Deprovisioned(id, Deactivated));
      EventConsistent(t, Provisioned(id));
      if Deactivates(op) {
        RowWrittenConsistent(WithEvent(AccessRemoved(t, existing.org, existing.user, existing.userName), Deprovisioned(id, Deactivated)), op);
      } else if Activates(op) {
        RowWrittenConsistent(WithEvent(t, Provisioned(id)), op);
      } else {
        RowWrittenConsistent(t, op);
      }
    case Delete(id, existing, now) =>
      var row := existing.(active := false, deleted := true, updatedAt := now);
      AccessRemovedGrants(t, existing.org, existing.user, existing.userName);
      var t1 := AccessRemoved(t, existing.org, existing.user, existing.userName);
      TombstoneConsistent(t1, id, row);
      EventConsistent(t1.(rows := t1.rows[id := row], groups := WithoutMember(t1.groups, id)), Deprovisioned(id, Deleted));
  }

  // ---------------------------------------------------- what a user transaction writes

  /** The rows after a SCIM user transaction. */
  function RowsAfter(t: Tables, op: UserOp): map<Id, ScimRow> {
    match op
    case Provision(input, user) => t.rows[NewRowId(t, input, user) := NewRow(input, user)]
    case Update(id, _, updated, _, now) => t.rows[id := updated.(updatedAt := now)]
    case Delete(id, existing, now) => t.rows[id := existing.(active := false, deleted := true, updatedAt := now)]
  }

  /** The audit events a SCIM user transaction publishes. */
  function EventsOf(t: Tables, op: UserOp): seq<Event> {
    match op
    case Provision(input, user) => if input.active then [Provisioned(NewRowId(t, input, user))] else []
    case Update(id, _, _, _, _) =>
      if Deactivates(op) then [Deprovisioned(id, Deactivated)] else if Activates(op) then [Provisioned(id)] else []
    case Delete(id, _, _) => [Deprovisioned(id, Deleted)]
  }

  function GroupsAfter(t: Tables, op: UserOp): map<Id, Group> {
    if op.Delete? then WithoutMember(t.groups, op.id) else t.groups
  }

  /** The fields of the directory, apart from the rows. */
  predicate SameDirectory(t: Tables, t': Tables) {
    t'.groups == t.groups && t'.mappings == t.mappings && t'.roles == t.roles && t'.outbox == t.outbox
  }

  lemma AccessRemovedFrame(t: Tables, org: string, user: Id, userName: string)
    ensures SameDirectory(t, AccessRemoved(t, org, user, userName)) && AccessRemoved(t, org, user, userName).rows == t.rows
  {
    hide InvitationsLeft, MembershipIdsOf, HasMembershipAnywhere;
  }

  lemma RowWrittenFrame(t: Tables, op: UserOp)
    requires op.Update?
    ensures SameDirectory(t, RowWritten(t, op))
    ensures RowWritten(t, op).rows == t.rows[op.id := op.updated.(updatedAt := op.now)]
  {
    hide RowWritten;
    RowWrittenIs(t, op);
  }

  lemma UpdateTables(t: Tables, op: UserOp)
    requires op.Update?
    ensures var w := UserWrite(t, op);
      && w.rows == RowsAfter(t, op) && w.groups == t.groups && w.outbox == t.outbox + EventsOf(t, op)
      && w.roles == t.roles && w.mappings == t.mappings
  {
    hide RowWritten, AccessRemoved;
    var e := op.existing;
    if Deactivates(op) {
      AccessRemovedFrame(t, e.org, e.user, e.userName);
      RowWrittenFrame(WithEvent(AccessRemoved(t, e.org, e.user, e.userName), Deprovisioned(op.id, Deactivated)), op);
    } else if Activates(op) {
      RowWrittenFrame(WithEvent(t, Provisioned(op.id)), op);
    } else {
      RowWrittenFrame(t, op);
    }
  }

  lemma WithUserFrame(t: Tables, input: NewUser, user: Id)
    ensures SameDirectory(t, WithUser(t, input, user)) && WithUser(t, input, user).rows == t.rows
  {
    hide KnownByIdentity, EmailToSearch;
  }

  lemma ProvisionTables(t: Tables, op: UserOp)
    requires op.Provision?
    ensures var w := UserWrite(t, op);
      && w.rows == RowsAfter(t, op) && w.groups == t.groups && w.outbox == t.outbox + EventsOf(t, op)
      && w.roles == t.roles && w.mappings == t.mappings
  {
    hide WithUser, NewRow;
    WithUserFrame(t, op.input, op.user);
  }

  lemma UserWriteTables(t: Tables, op: UserOp)
    ensures var w := UserWrite(t, op);
      && w.rows == RowsAfter(t, op) && w.groups == GroupsAfter(t, op) && w.outbox == t.outbox + EventsOf(t, op)
      && w.roles == t.roles && w.mappings == t.mappings
  {
    if op.Provision? {
      hide UserWrite;
      ProvisionTables(t, op);
    } else if op.Update? {
      hide UserWrite;
      UpdateTables(t, op);
    } else {
      hide AccessRemoved, WithoutMember;
      AccessRemovedFrame(t, op.existing.org, op.existing.user, op.existing.userName);
    }
  }
}
