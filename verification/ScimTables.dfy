/**
 * The tables the SCIM directory works on, and what the queries over them mean.
 *
 * A transaction works on its own copy of the tables and commits by replacing the
 * server's copy.  Uuids are natural numbers below `nextId`, so a new row takes
 * `nextId`.
 */
module ScimTables {
  import opened Common

  type Id = nat

  datatype Subject = RoleSubject(role: Id) | OtherSubject(name: string)

  /** Exactly the columns of the uniqueness constraint on memberships. */
  datatype Membership = Membership(user: Id, org: string, subject: Subject, scope: string)

  datatype Role = Role(org: string, name: string)

  /** A row of scim_users; a tombstone has `deleted` set and is never active. */
  datatype ScimRow = ScimRow(
    org: string, user: Id, userName: string, externalId: Option<string>, active: bool, deleted: bool, updatedAt: nat)

  datatype Group = Group(org: string, name: string, externalId: Option<string>, members: set<Id>)

  datatype User = User(email: Option<string>)

  datatype Provider = ScimIdentity | SsoIdentity

  datatype Identity = Identity(provider: Provider, key: string)

  datatype Invitation = Invitation(org: string, email: string, subject: Subject)

  datatype Reason = Deactivated | Deleted

  datatype Event = Provisioned(row: Id) | Deprovisioned(row: Id, reason: Reason)

  /** `managed` maps a membership to the scim_users row on whose behalf it was created. */
  datatype Tables = Tables(
    nextId: Id,
    users: map<Id, User>,
    identities: map<Identity, Id>,
    roles: map<Id, Role>,
    memberships: map<Id, Membership>,
    managed: map<Id, Id>,
    rows: map<Id, ScimRow>,
    groups: map<Id, Group>,
    mappings: map<(string, string), Id>,
    invitations: map<Id, Invitation>,
    sessions: map<Id, Id>,
    devices: map<Id, Option<Id>>,
    outbox: seq<Event>)

  const VIEWER := "Viewer"
  const ADMIN := "Admin"
  const DEPLOYER := "Deployer"

  /** LOWER() on ASCII letters. */
  function Lower(s: string): string {
    if s == [] then []
    else [if 'A' <= s[0] <= 'Z' then s[0] - 'A' + 'a' else s[0]] + Lower(s[1..])
  }

  /** The same letter, whatever its case. */
  predicate SameLetter(x: char, y: char) {
    x == y || ('A' <= x <= 'Z' && y as int == x as int + 32) || ('A' <= y <= 'Z' && x as int == y as int + 32)
  }

  /** Equal up to the case of ASCII letters. */
  predicate SameText(a: string, b: string) {
    |a| == |b| && forall i :: 0 <= i < |a| ==> SameLetter(a[i], b[i])
  }

  /** Comparing lower-cased texts is comparing texts without regard to case. */
  lemma LowerIff(a: string, b: string)
    ensures Lower(a) == Lower(b) <==> SameText(a, b)
  {
    LowerByLetter(a);
    LowerByLetter(b);
    hide Lower;
    if Lower(a) == Lower(b) {
      assert forall i :: 0 <= i < |a| ==> Lower(a)[i] == Lower(b)[i];
    }
  }

  lemma {:induction false} LowerByLetter(s: string)
    ensures |Lower(s)| == |s|
    ensures forall i :: 0 <= i < |s| ==> Lower(s)[i] as int == if 'A' <= s[i] <= 'Z' then s[i] as int + 32 else s[i] as int
  {
    if s != [] {
      LowerByLetter(s[1..]);
    }
  }

  predicate NoCapitals(s: string) {
    forall c :: c in s ==> !('A' <= c <= 'Z')
  }

  /** Lower-casing gives a text without capital letters and changes no other text. */
  lemma LowerIsLower(s: string)
    ensures NoCapitals(Lower(s)) && (NoCapitals(s) <==> Lower(s) == s)
  {
    LowerByLetter(s);
    hide Lower;
    if NoCapitals(s) {
      assert forall i :: 0 <= i < |s| ==> s[i] in s;
    }
    if Lower(s) == s {
      assert forall i :: 0 <= i < |s| ==> Lower(s)[i] == s[i];
    }
  }

  // ----------------------------------------------------------- memberships as grants

  /** Who may take a grant away: a human, or the reconciliation of one SCIM row. */
  datatype Owner = Human | Scim(row: Id)

  /** A membership without its id. */
  datatype Grant = Grant(membership: Membership, owner: Owner)

  function OwnerOf(managed: map<Id, Id>, id: Id): Owner {
    if id in managed then Scim(managed[id]) else Human
  }

  function GrantOf(t: Tables, id: Id): Grant
    requires id in t.memberships
  {
    Grant(t.memberships[id], OwnerOf(t.managed, id))
  }

  function Grants(t: Tables): set<Grant> {
    set id | id in t.memberships :: Grant(t.memberships[id], OwnerOf(t.managed, id))
  }

  function RoleMembership(row: ScimRow, role: Id): Membership {
    Membership(row.user, row.org, RoleSubject(role), "")
  }

  predicate GrantsRole(g: Grant, role: Id) {
    g.membership.subject == RoleSubject(role)
  }

  predicate Belongs(g: Grant, org: string, user: Id) {
    g.membership.org == org && g.membership.user == user
  }

  predicate Held(grants: set<Grant>, m: Membership) {
    exists g :: g in grants && g.membership == m
  }

  // ------------------------------------------------------------------- consistency

  predicate Live(rows: map<Id, ScimRow>, id: Id) {
    id in rows && !rows[id].deleted
  }

  predicate Active(rows: map<Id, ScimRow>, id: Id) {
    Live(rows, id) && rows[id].active
  }

  predicate UniqueMemberships(memberships: map<Id, Membership>) {
    forall i, j :: i in memberships && j in memberships && memberships[i] == memberships[j] ==> i == j
  }

  /** Every managed mark belongs to an organization-wide role membership of its row's user. */
  predicate ManagedShape(memberships: map<Id, Membership>, managed: map<Id, Id>, rows: map<Id, ScimRow>) {
    forall id :: id in managed ==> id in memberships && ManagedFor(memberships[id], managed[id], rows)
  }

  predicate ManagedFor(m: Membership, row: Id, rows: map<Id, ScimRow>) {
    row in rows && m.subject.RoleSubject? && m == RoleMembership(rows[row], m.subject.role)
  }

  predicate UniqueLiveRows(rows: map<Id, ScimRow>) {
    forall i, j :: i in rows && j in rows && SameLiveUser(rows[i], rows[j]) ==> i == j
  }

  predicate SameLiveUser(r: ScimRow, s: ScimRow) {
    !r.deleted && !s.deleted && r.org == s.org && r.user == s.user
  }

  predicate GroupsWellFormed(groups: map<Id, Group>, rows: map<Id, ScimRow>) {
    && (forall g, id :: g in groups && id in groups[g].members ==> Live(rows, id) && rows[id].org == groups[g].org)
    && (forall g, h :: g in groups && h in groups && SameName(groups[g], groups[h]) ==> g == h)
  }

  predicate SameName(g: Group, h: Group) {
    g.org == h.org && Lower(g.name) == Lower(h.name)
  }

  predicate MappingsWellFormed(mappings: map<(string, string), Id>, roles: map<Id, Role>) {
    forall k :: k in mappings ==> mappings[k] in roles && roles[mappings[k]].org == k.0
  }

  /** An organization's roles have different display names. */
  predicate UniqueRoleNames(roles: map<Id, Role>) {
    forall i, j :: i in roles && j in roles && roles[i] == roles[j] ==> i == j
  }

  /** Foreign keys to the users table. */
  predicate UsersExist(t: Tables) {
    && (forall id :: id in t.memberships ==> t.memberships[id].user in t.users)
    && (forall id :: id in t.rows ==> t.rows[id].user in t.users)
    && (forall k :: k in t.identities ==> t.identities[k] in t.users)
  }

  predicate IdsBelow(t: Tables) {
    && (forall id :: id in t.users ==> id < t.nextId)
    && (forall id :: id in t.roles ==> id < t.nextId)
    && (forall id :: id in t.memberships ==> id < t.nextId)
    && (forall id :: id in t.rows ==> id < t.nextId)
    && (forall id :: id in t.groups ==> id < t.nextId)
    && (forall id :: id in t.sessions ==> id < t.nextId)
  }

  /** What the schema's constraints and foreign keys guarantee. */
  predicate Consistent(t: Tables) {
    && UniqueMemberships(t.memberships)
    && ManagedShape(t.memberships, t.managed, t.rows)
    && UniqueLiveRows(t.rows)
    && GroupsWellFormed(t.groups, t.rows)
    && MappingsWellFormed(t.mappings, t.roles)
    && UniqueRoleNames(t.roles)
    && UsersExist(t)
    && IdsBelow(t)
  }

  // ------------------------------------------------------------- queries and targets

  predicate MappedThrough(group: Group, mappings: map<(string, string), Id>, id: Id) {
    id in group.members && (group.org, Lower(group.name)) in mappings
  }

  /** The roles mapped to the groups a SCIM user is in. */
  function MappedRoles(groups: map<Id, Group>, mappings: map<(string, string), Id>, id: Id): set<Id> {
    set g | g in groups && MappedThrough(groups[g], mappings, id) :: mappings[(groups[g].org, Lower(groups[g].name))]
  }

  /** The user holds a role in the organization that this row's reconciliation does not own. */
  predicate HasManualRole(grants: set<Grant>, row: ScimRow, id: Id) {
    exists g :: g in grants && Belongs(g, row.org, row.user) && g.membership.subject.RoleSubject? && g.owner != Scim(id)
  }

  predicate NeedsViewer(t: Tables, id: Id) {
    id in t.rows && MappedRoles(t.groups, t.mappings, id) == {} && !HasManualRole(Grants(t), t.rows[id], id)
  }

  /** The roles a row's managed memberships should cover. */
  function Target(t: Tables, id: Id, viewer: Id): set<Id> {
    if MappedRoles(t.groups, t.mappings, id) != {} then MappedRoles(t.groups, t.mappings, id)
    else if NeedsViewer(t, id) then {viewer}
    else {}
  }

  function Targets(t: Tables, ids: set<Id>, viewer: Id): (targets: map<Id, set<Id>>)
    ensures targets.Keys == ids
  {
    map id | id in ids :: Target(t, id, viewer)
  }

  // -------------------------------------------------------------- reconciled grants

  /** Managed grants whose role fell out of their row's target. */
  function Stale(grants: set<Grant>, targets: map<Id, set<Id>>): set<Grant> {
    set g | g in grants && IsStale(g, targets)
  }

  predicate IsStale(g: Grant, targets: map<Id, set<Id>>) {
    && g.owner.Scim? && g.owner.row in targets
    && !(g.membership.subject.RoleSubject? && g.membership.subject.role in targets[g.owner.row])
  }

  /** Target roles that nothing among the kept grants provides. */
  function Missing(kept: set<Grant>, rows: map<Id, ScimRow>, targets: map<Id, set<Id>>): set<Grant> {
    set id, role | id in targets && id in rows && role in targets[id] && !Held(kept, RoleMembership(rows[id], role))
      :: Grant(RoleMembership(rows[id], role), Scim(id))
  }

  /** The grants after the rows in `targets` were reconciled. */
  function Reconciled(grants: set<Grant>, rows: map<Id, ScimRow>, targets: map<Id, set<Id>>): set<Grant> {
    var kept := grants - Stale(grants, targets);
    kept + Missing(kept, rows, targets)
  }

  // ----------------------------------------------------------------- the Viewer role

  predicate HasRoles(roles: map<Id, Role>, org: string) {
    exists id :: id in roles && roles[id].org == org
  }

  predicate IsViewer(roles: map<Id, Role>, org: string, id: Id) {
    id in roles && roles[id] == Role(org, VIEWER)
  }

  /** The built-in roles are seeded only into an organization without any role. */
  function Seeded(t: Tables, org: string): Tables {
    t.(roles := WithBuiltins(t.roles, org, t.nextId), nextId := t.nextId + 3)
  }

  function WithBuiltins(roles: map<Id, Role>, org: string, id: Id): map<Id, Role> {
    roles[id := Role(org, ADMIN)][id + 1 := Role(org, DEPLOYER)][id + 2 := Role(org, VIEWER)]
  }

  lemma BuiltinsAdded(roles: map<Id, Role>, org: string, id: Id)
    requires forall r :: r in roles ==> r < id
    ensures forall r :: r in roles ==> r in WithBuiltins(roles, org, id) && WithBuiltins(roles, org, id)[r] == roles[r]
    ensures forall r :: r in WithBuiltins(roles, org, id) ==> r < id + 3
    ensures IsViewer(WithBuiltins(roles, org, id), org, id + 2)
    ensures UniqueRoleNames(roles) && !HasRoles(roles, org) ==> UniqueRoleNames(WithBuiltins(roles, org, id))
  {
  }

  function ListedOrSeeded(t: Tables, org: string): Tables {
    if HasRoles(t.roles, org) then t else Seeded(t, org)
  }

  /** The organization has roles, but none of them is the Viewer role. */
  predicate ViewerMissing(t: Tables, org: string) {
    HasRoles(t.roles, org) && forall id :: id in t.roles ==> !IsViewer(t.roles, org, id)
  }

  /** Only memberships, their managed marks, seeded roles and the id counter may differ. */
  predicate SameExceptGrants(t: Tables, t': Tables) {
    && t' == t.(nextId := t'.nextId, roles := t'.roles, memberships := t'.memberships, managed := t'.managed)
    && t.nextId <= t'.nextId
    && (forall id :: id in t.roles ==> id in t'.roles && t'.roles[id] == t.roles[id])
  }

  predicate RolesListedOrSeeded(t: Tables, t': Tables, org: string) {
    t'.roles == t.roles || (!HasRoles(t.roles, org) && t'.roles == Seeded(t, org).roles)
  }

  /** t' is t after the rows `ids` of `org` were reconciled, with `viewer` as the fallback role. */
  ghost predicate ReconciledTo(t: Tables, t': Tables, org: string, ids: set<Id>, viewer: Id) {
    && Consistent(t')
    && SameExceptGrants(t, t') && RolesListedOrSeeded(t, t', org)
    && ((exists id :: id in ids && NeedsViewer(t, id)) ==> IsViewer(t'.roles, org, viewer))
    && Grants(t') == Reconciled(Grants(t), t.rows, Targets(t, ids, viewer))
  }

  // ------------------------------------------------------------------ row operations

  function DeleteMemberships(t: Tables, ids: set<Id>): Tables {
    t.(memberships := t.memberships - ids, managed := t.managed - ids)
  }

  function InsertMembership(t: Tables, m: Membership, owner: Owner): Tables {
    t.(nextId := t.nextId + 1,
       memberships := t.memberships[t.nextId := m],
       managed := if owner.Scim? then t.managed[t.nextId := owner.row] else t.managed)
  }

  /** The grants of the memberships with these ids. */
  function GrantsOf(t: Tables, ids: set<Id>): set<Grant> {
    set id | id in ids && id in t.memberships :: Grant(t.memberships[id], OwnerOf(t.managed, id))
  }

  lemma DeleteMembershipsConsistent(t: Tables, ids: set<Id>)
    requires Consistent(t)
    ensures Consistent(DeleteMemberships(t, ids))
  {
  }

  lemma DeleteMembershipsGrants(t: Tables, ids: set<Id>)
    requires UniqueMemberships(t.memberships)
    ensures Grants(DeleteMemberships(t, ids)) == Grants(t) - GrantsOf(t, ids)
  {
    var t' := DeleteMemberships(t, ids);
    forall g ensures g in Grants(t') <==> g in Grants(t) - GrantsOf(t, ids) {
      if g in Grants(t') {
        var id :| id in t'.memberships && g == Grant(t'.memberships[id], OwnerOf(t'.managed, id));
        assert g == GrantOf(t, id) && id !in ids;
      }
      if g in Grants(t) - GrantsOf(t, ids) {
        var id :| id in t.memberships && g == Grant(t.memberships[id], OwnerOf(t.managed, id));
        assert id in t'.memberships && g == GrantOf(t', id);
      }
    }
  }

  lemma InsertMembershipConsistent(t: Tables, m: Membership, owner: Owner)
    requires Consistent(t) && m.user in t.users && m !in t.memberships.Values
    requires owner.Scim? ==> ManagedFor(m, owner.row, t.rows)
    ensures Consistent(InsertMembership(t, m, owner))
  {
    var t' := InsertMembership(t, m, owner);
    assert UniqueMemberships(t'.memberships);
    assert ManagedShape(t'.memberships, t'.managed, t'.rows);
  }

  lemma InsertMembershipGrants(t: Tables, m: Membership, owner: Owner)
    requires IdsBelow(t) && ManagedShape(t.memberships, t.managed, t.rows)
    ensures Grants(InsertMembership(t, m, owner)) == Grants(t) + {Grant(m, owner)}
  {
    var t' := InsertMembership(t, m, owner);
    forall g ensures g in Grants(t') <==> g in Grants(t) + {Grant(m, owner)} {
      if g in Grants(t') {
        var id :| id in t'.memberships && g == Grant(t'.memberships[id], OwnerOf(t'.managed, id));
        assert id == t.nextId || g == GrantOf(t, id);
      }
      if g in Grants(t) {
        var id :| id in t.memberships && g == Grant(t.memberships[id], OwnerOf(t.managed, id));
        assert id in t'.memberships && g == GrantOf(t', id);
      }
      assert GrantOf(t', t.nextId) == Grant(m, owner);
    }
  }

  lemma HeldIsStored(t: Tables, m: Membership)
    ensures Held(Grants(t), m) <==> m in t.memberships.Values
  {
    if m in t.memberships.Values {
      var id :| id in t.memberships && t.memberships[id] == m;
      assert GrantOf(t, id) in Grants(t);
    }
  }
}
