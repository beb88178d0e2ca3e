/**
 * Transactions on SCIM groups and their role mappings, and the transactions
 * that grant or remove memberships outside SCIM: SSO logins, invitation
 * redemptions and human grants.
 */
module AccessOperations {
  import opened Common
  import opened ScimTables
  import opened ScimReconcile
  import opened ScimOperations

  // --------------------------------------------------------- groups and mappings

  datatype GroupOp =
    | SaveGroup(id: Id, group: Group)
    | DeleteGroup(id: Id)
    | SaveMapping(org: string, name: string, role: Id)
    | DeleteMapping(org: string, name: string)

  predicate GroupNameFree(groups: map<Id, Group>, id: Id, group: Group) {
    forall g :: g in groups && SameName(groups[g], group) ==> g == id
  }

  predicate LiveMembers(rows: map<Id, ScimRow>, group: Group) {
    forall m :: m in group.members ==> Live(rows, m) && rows[m].org == group.org
  }

  predicate GroupOpAllowed(t: Tables, op: GroupOp) {
    match op
    case SaveGroup(id, group) =>
      && (if id in t.groups then t.groups[id].org == group.org else id == t.nextId)
      && GroupNameFree(t.groups, id, group) && LiveMembers(t.rows, group)
    case DeleteGroup(id) => id in t.groups
    case SaveMapping(org, name, role) => role in t.roles && t.roles[role].org == org
    case DeleteMapping(org, name) => (org, Lower(name)) in t.mappings
  }

  function GroupWrite(t: Tables, op: GroupOp): Tables {
    match op
    case SaveGroup(id, group) =>
      t.(groups := t.groups[id := group], nextId := if id == t.nextId then t.nextId + 1 else t.nextId)
    case DeleteGroup(id) => t.(groups := t.groups - {id})
    case SaveMapping(org, name, role) => t.(mappings := t.mappings[(org, Lower(name)) := role])
    case DeleteMapping(org, name) => t.(mappings := t.mappings - {(org, Lower(name))})
  }

  function MembersOf(groups: map<Id, Group>, id: Id): set<Id> {
    if id in groups then groups[id].members else {}
  }

  /** Members of the organization's group with this name, whatever its case. */
  function MembersNamed(groups: map<Id, Group>, org: string, name: string): set<Id> {
    set g, m | g in groups && groups[g].org == org && Lower(groups[g].name) == Lower(name) && m in groups[g].members :: m
  }

  function GroupOpOrg(t: Tables, op: GroupOp): string {
    match op
    case SaveGroup(_, group) => group.org
    case DeleteGroup(id) => if id in t.groups then t.groups[id].org else ""
    case SaveMapping(org, _, _) => org
    case DeleteMapping(org, _) => org
  }

  /** Joiners, leavers and stayers of a saved group; the members a mapping change concerns. */
  function Concerned(t: Tables, op: GroupOp): set<Id> {
    match op
    case SaveGroup(id, group) => MembersOf(t.groups, id) + group.members
    case DeleteGroup(id) => MembersOf(t.groups, id)
    case SaveMapping(org, name, _) => MembersNamed(t.groups, org, name)
    case DeleteMapping(org, name) => MembersNamed(t.groups, org, name)
  }

  function GroupReconciles(t: Tables, op: GroupOp): set<Id> {
    ActiveIn(t.rows, GroupOpOrg(t, op), Concerned(t, op))
  }

  /** A committed group or mapping transaction. */
  ghost predicate GroupCommits(t: Tables, op: GroupOp, t': Tables, viewer: Id) {
    GroupOpAllowed(t, op) && ReconciledTo(GroupWrite(t, op), t', GroupOpOrg(t, op), GroupReconciles(t, op), viewer)
  }

  lemma GroupTablesConsistent(t: Tables, t': Tables)
    requires Consistent(t) && t' == t.(groups := t'.groups, mappings := t'.mappings, nextId := t'.nextId) && t.nextId <= t'.nextId
    requires GroupsWellFormed(t'.groups, t.rows) && MappingsWellFormed(t'.mappings, t.roles)
    requires forall g :: g in t'.groups ==> g < t'.nextId
    ensures Consistent(t') && Grants(t') == Grants(t)
  {
  }

  lemma SavedGroupWellFormed(t: Tables, id: Id, group: Group)
    requires GroupsWellFormed(t.groups, t.rows) && GroupOpAllowed(t, SaveGroup(id, group))
    ensures GroupsWellFormed(t.groups[id := group], t.rows)
  {
    var groups := t.groups[id := group];
    forall g, h | g in groups && h in groups && SameName(groups[g], groups[h]) ensures g == h {
      assert SameName(groups[h], groups[g]);
    }
  }

  lemma GroupWriteConsistent(t: Tables, op: GroupOp)
    requires Consistent(t) && GroupOpAllowed(t, op)
    ensures Consistent(GroupWrite(t, op)) && Grants(GroupWrite(t, op)) == Grants(t)
  {
    hide Grants, UniqueMemberships, UniqueLiveRows, ManagedShape, UsersExist, UniqueRoleNames;
    hide GroupsWellFormed, MappingsWellFormed;
    match op
    case SaveGroup(id, group) =>
      SavedGroupWellFormed(t, id, group);
      GroupTablesConsistent(t, GroupWrite(t, op));
    case DeleteGroup(id) =>
      GroupsLessOne(t.groups, t.rows, id);
      GroupTablesConsistent(t, GroupWrite(t, op));
    case SaveMapping(org, name, role) =>
      MappingAdded(t.mappings, t.roles, (org, Lower(name)), role);
      GroupTablesConsistent(t, GroupWrite(t, op));
    case DeleteMapping(org, name) =>
      MappingDropped(t.mappings, t.roles, (org, Lower(name)));
      GroupTablesConsistent(t, GroupWrite(t, op));
  }

  lemma MappingAdded(mappings: map<(string, string), Id>, roles: map<Id, Role>, key: (string, string), role: Id)
    requires MappingsWellFormed(mappings, roles) && role in roles && roles[role].org == key.0
    ensures MappingsWellFormed(mappings[key := role], roles)
  {
  }

  lemma MappingDropped(mappings: map<(string, string), Id>, roles: map<Id, Role>, key: (string, string))
    requires MappingsWellFormed(mappings, roles)
    ensures MappingsWellFormed(mappings - {key}, roles)
  {
  }

  lemma GroupsLessOne(groups: map<Id, Group>, rows: map<Id, ScimRow>, id: Id)
    requires GroupsWellFormed(groups, rows)
    ensures GroupsWellFormed(groups - {id}, rows)
  {
  }

  // ------------------------------------------------------ access from outside SCIM

  datatype AccessOp =
    | Login(org: string, key: string, email: string, user: Id, role: Id)
    | Redeem(invitation: Id, user: Id)
    | GrantByHuman(org: string, user: Id, subject: Subject, scope: string)
    | ReplaceByHuman(org: string, user: Id, requests: seq<(Subject, string)>)
    | RemoveByHuman(membership: Id)

  /** Users of the organization's SCIM rows whose primary email is the asserted one. */
  function GovernedMatches(t: Tables, org: string, email: string): set<Id> {
    set id | id in t.rows && t.rows[id].org == org && t.rows[id].user in t.users && HasEmail(t.users[t.rows[id].user], email)
      :: t.rows[id].user
  }

  /** The user an SSO assertion stands for, and the gates it has to pass. */
  predicate LoginResolves(t: Tables, org: string, key: string, email: string, user: Id) {
    if Identity(SsoIdentity, key) in t.identities then
      user == t.identities[Identity(SsoIdentity, key)] && !Withdrawn(t.rows, org, user)
    else if GovernedMatches(t, org, email) != {} then
      GovernedMatches(t, org, email) == {user} && !Withdrawn(t.rows, org, user)
    else
      user == t.nextId
  }

  predicate HasMemberships(memberships: map<Id, Membership>, org: string) {
    exists m :: m in memberships && memberships[m].org == org
  }

  predicate RoleOfOrg(roles: map<Id, Role>, org: string, subject: Subject) {
    subject.RoleSubject? ==> subject.role in roles && roles[subject.role].org == org
  }

  function LoginUser(t: Tables, key: string, email: string, user: Id): Tables {
    t.(users := t.users[user := User(Some(email))],
       identities := t.identities[Identity(SsoIdentity, key) := user],
       nextId := if user in t.users then t.nextId else t.nextId + 1)
  }

  /** A login stores a membership only for a user without any role in the organization. */
  function LoginMembership(t: Tables, org: string, user: Id, role: Id): Tables {
    if HasRoleMembership(t.memberships, org, user) then t
    else InsertMembership(ListedOrSeeded(t, org), Membership(user, org, RoleSubject(role), ""), Human)
  }

  predicate LoginRole(t: Tables, org: string, user: Id, role: Id) {
    var roles := ListedOrSeeded(t, org).roles;
    !HasRoleMembership(t.memberships, org, user) ==>
      role in roles && roles[role] == Role(org, if HasMemberships(t.memberships, org) then VIEWER else ADMIN)
  }

  function WithSession(t: Tables, user: Id): Tables {
    t.(sessions := t.sessions[t.nextId := user], nextId := t.nextId + 1)
  }

  predicate Invited(t: Tables, invitation: Id, user: Id) {
    && invitation in t.invitations && user in t.users
    && !Withdrawn(t.rows, t.invitations[invitation].org, user)
  }

  predicate HasSubject(memberships: map<Id, Membership>, org: string, user: Id, subject: Subject) {
    exists m :: m in memberships && memberships[m].org == org && memberships[m].user == user && memberships[m].subject == subject
  }

  function RequestedMembership(org: string, user: Id, request: (Subject, string)): Membership {
    Membership(user, org, request.0, request.1)
  }

  function InsertAll(t: Tables, org: string, user: Id, requests: seq<(Subject, string)>): Tables
    decreases |requests|
  {
    if requests == [] then t
    else InsertMembership(InsertAll(t, org, user, requests[..|requests| - 1]),
                          RequestedMembership(org, user, requests[|requests| - 1]), Human)
  }

  predicate AccessOpAllowed(t: Tables, op: AccessOp) {
    match op
    case Login(org, key, email, user, role) =>
      LoginResolves(t, org, key, email, user) && LoginRole(LoginUser(t, key, email, user), org, user, role)
    case Redeem(invitation, user) =>
      && Invited(t, invitation, user)
      && var i := t.invitations[invitation];
         HasSubject(t.memberships, i.org, user, i.subject) || RoleOfOrg(t.roles, i.org, i.subject)
    case GrantByHuman(org, user, subject, scope) =>
      user in t.users && RoleOfOrg(t.roles, org, subject) && Membership(user, org, subject, scope) !in t.memberships.Values
    case ReplaceByHuman(org, user, requests) =>
      && HasMembership(t.memberships, org, user) && Distinct(requests)
      && forall r :: r in requests ==> RoleOfOrg(t.roles, org, r.0)
    case RemoveByHuman(membership) => membership in t.memberships
  }

  function AccessWrite(t: Tables, op: AccessOp): Tables {
    match op
    case Login(org, key, email, user, role) =>
      WithSession(LoginMembership(LoginUser(t, key, email, user), org, user, role), user)
    case Redeem(invitation, user) =>
      if invitation !in t.invitations then t
      else
        var i := t.invitations[invitation];
        var t1 := if HasSubject(t.memberships, i.org, user, i.subject) then t
                  else InsertMembership(t, Membership(user, i.org, i.subject, ""), Human);
        t1.(invitations := t1.invitations - {invitation})
    case GrantByHuman(org, user, subject, scope) => InsertMembership(t, Membership(user, org, subject, scope), Human)
    case ReplaceByHuman(org, user, requests) =>
      InsertAll(DeleteMemberships(t, MembershipIdsOf(t.memberships, org, user)), org, user, requests)
    case RemoveByHuman(membership) => DeleteMemberships(t, {membership})
  }

  /** A committed transaction outside SCIM. */
  predicate AccessCommits(t: Tables, op: AccessOp, t': Tables) {
    AccessOpAllowed(t, op) && t' == AccessWrite(t, op)
  }

  /** Human grants a transaction adds. */
  function AccessAdds(t: Tables, op: AccessOp): set<Grant> {
    match op
    case Login(org, key, email, user, role) =>
      if HasRoleMembership(t.memberships, org, user) then {} else {Grant(Membership(user, org, RoleSubject(role), ""), Human)}
    case Redeem(invitation, user) =>
      if invitation !in t.invitations then {}
      else
        var i := t.invitations[invitation];
        if HasSubject(t.memberships, i.org, user, i.subject) then {} else {Grant(Membership(user, i.org, i.subject, ""), Human)}
    case GrantByHuman(org, user, subject, scope) => {Grant(Membership(user, org, subject, scope), Human)}
    case ReplaceByHuman(org, user, requests) => set r | r in requests :: Grant(RequestedMembership(org, user, r), Human)
    case RemoveByHuman(_) => {}
  }

  /** Grants a transaction takes away. */
  function AccessDrops(t: Tables, op: AccessOp): set<Grant> {
    match op
    case ReplaceByHuman(org, user, _) => set g | g in Grants(t) && Belongs(g, org, user)
    case RemoveByHuman(membership) => GrantsOf(t, {membership})
    case _ => {}
  }

  lemma NotHeldYet(t: Tables, org: string, user: Id, subject: Subject, scope: string)
    requires !HasSubject(t.memberships, org, user, subject)
    ensures Membership(user, org, subject, scope) !in t.memberships.Values
  {
  }

  lemma HumanGrant(t: Tables, m: Membership)
    requires Consistent(t) && m.user in t.users && m !in t.memberships.Values
    ensures var t' := InsertMembership(t, m, Human);
      Consistent(t') && Grants(t') == Grants(t) + {Grant(m, Human)}
  {
    InsertMembershipConsistent(t, m, Human);
    InsertMembershipGrants(t, m, Human);
  }

  lemma {:induction false} InsertAllConsistent(t: Tables, org: string, user: Id, requests: seq<(Subject, string)>)
    requires Consistent(t) && user in t.users && !HasMembership(t.memberships, org, user) && Distinct(requests)
    ensures var t' := InsertAll(t, org, user, requests);
      && Consistent(t')
      && Grants(t') == Grants(t) + (set r | r in requests :: Grant(RequestedMembership(org, user, r), Human))
      && t' == t.(memberships := t'.memberships, nextId := t'.nextId)
      && (forall m :: m in t'.memberships.Values ==> m in t.memberships.Values || exists r :: r in requests && m == RequestedMembership(org, user, r))
    decreases |requests|
  {
    hide Consistent, Grants;
    if requests != [] {
      var init, last := requests[..|requests| - 1], requests[|requests| - 1];
      assert requests == init + [last] && last !in init;
      InsertAllConsistent(t, org, user, init);
      var t1 := InsertAll(t, org, user, init);
      assert RequestedMembership(org, user, last) !in t1.memberships.Values;
      HumanGrant(t1, RequestedMembership(org, user, last));
    }
  }

  lemma LoginUserConsistent(t: Tables, org: string, key: string, email: string, user: Id)
    requires Consistent(t) && LoginResolves(t, org, key, email, user)
    ensures var t' := LoginUser(t, key, email, user);
      Consistent(t') && user in t'.users && Grants(t') == Grants(t) && t'.memberships == t.memberships
  {
    if Identity(SsoIdentity, key) !in t.identities && GovernedMatches(t, org, email) != {} {
      assert user in GovernedMatches(t, org, email);
    }
  }

  lemma SessionConsistent(t: Tables, user: Id)
    requires Consistent(t)
    ensures Consistent(WithSession(t, user)) && Grants(WithSession(t, user)) == Grants(t)
  {
  }

  lemma InvitationGoneConsistent(t: Tables, invitation: Id)
    requires Consistent(t)
    ensures var t' := t.(invitations := t.invitations - {invitation}); Consistent(t') && Grants(t') == Grants(t)
  {
  }

  lemma UserOfMembership(t: Tables, org: string, user: Id)
    requires Consistent(t) && HasMembership(t.memberships, org, user)
    ensures user in t.users
  {
  }

  lemma LoginConsistent(t: Tables, org: string, key: string, email: string, user: Id, role: Id)
    requires Consistent(t) && AccessOpAllowed(t, Login(org, key, email, user, role))
    ensures var op := Login(org, key, email, user, role);
      && Consistent(AccessWrite(t, op))
      && Grants(AccessWrite(t, op)) == Grants(t) - AccessDrops(t, op) + AccessAdds(t, op)
  {
    hide Consistent, Grants;
    LoginUserConsistent(t, org, key, email, user);
    var t1 := LoginUser(t, key, email, user);
    SeededConsistent(t1, org);
    var m := Membership(user, org, RoleSubject(role), "");
    if !HasRoleMembership(t.memberships, org, user) {
      assert m !in t1.memberships.Values;
      HumanGrant(ListedOrSeeded(t1, org), m);
    }
    SessionConsistent(LoginMembership(t1, org, user, role), user);
  }

  /** A transaction outside SCIM adds and drops exactly these grants. */
  lemma AccessWriteConsistent(t: Tables, op: AccessOp)
    requires Consistent(t) && AccessOpAllowed(t, op)
    ensures Consistent(AccessWrite(t, op))
    ensures Grants(AccessWrite(t, op)) == Grants(t) - AccessDrops(t, op) + AccessAdds(t, op)
  {
    hide Consistent, Grants;
    match op
    case Login(org, key, email, user, role) => LoginConsistent(t, org, key, email, user, role);
    case Redeem(invitation, user) =>
      var i := t.invitations[invitation];
      if HasSubject(t.memberships, i.org, user, i.subject) {
        InvitationGoneConsistent(t, invitation);
      } else {
        NotHeldYet(t, i.org, user, i.subject, "");
        HumanGrant(t, Membership(user, i.org, i.subject, ""));
        InvitationGoneConsistent(InsertMembership(t, Membership(user, i.org, i.subject, ""), Human), invitation);
      }
    case GrantByHuman(org, user, subject, scope) =>
      HumanGrant(t, Membership(user, org, subject, scope));
    case ReplaceByHuman(org, user, requests) =>
      var gone := MembershipIdsOf(t.memberships, org, user);
      UserOfMembership(t, org, user);
      DeleteMembershipsConsistent(t, gone);
      ConsistentUnique(t);
      DeleteMembershipsGrants(t, gone);
      GrantsOfUser(t, org, user);
      InsertAllConsistent(DeleteMemberships(t, gone), org, user, requests);
    case RemoveByHuman(membership) =>
      ConsistentUnique(t);
      DeleteMembershipsConsistent(t, {membership});
      DeleteMembershipsGrants(t, {membership});
  }

  /** The SCIM directory is none of these transactions' business. */
  predicate DirectoryKept(t: Tables, t': Tables) {
    && t'.rows == t.rows && t'.groups == t.groups && t'.mappings == t.mappings && t'.outbox == t.outbox
    && (forall r :: r in t.roles ==> r in t'.roles && t'.roles[r] == t.roles[r])
  }

  lemma {:induction false} InsertAllKeepsDirectory(t: Tables, org: string, user: Id, requests: seq<(Subject, string)>)
    ensures DirectoryKept(t, InsertAll(t, org, user, requests))
    decreases |requests|
  {
    if requests != [] {
      InsertAllKeepsDirectory(t, org, user, requests[..|requests| - 1]);
    }
  }

  predicate RolesBelow(t: Tables) {
    forall r :: r in t.roles ==> r < t.nextId
  }

  lemma SeedingKeepsDirectory(t: Tables, org: string)
    requires RolesBelow(t)
    ensures DirectoryKept(t, ListedOrSeeded(t, org))
  {
    hide HasRoles, WithBuiltins;
    var w := ListedOrSeeded(t, org);
    if w != t {
      BuiltinsAdded(t.roles, org, t.nextId);
      assert w == t.(roles := WithBuiltins(t.roles, org, t.nextId), nextId := t.nextId + 3);
    }
  }

  lemma InsertKeepsDirectory(t: Tables, m: Membership)
    ensures DirectoryKept(t, InsertMembership(t, m, Human))
  {
  }

  lemma LoginMembershipKeepsDirectory(t: Tables, org: string, user: Id, role: Id)
    requires RolesBelow(t)
    ensures DirectoryKept(t, LoginMembership(t, org, user, role))
  {
    hide HasRoleMembership, ListedOrSeeded, InsertMembership;
    SeedingKeepsDirectory(t, org);
    InsertKeepsDirectory(ListedOrSeeded(t, org), Membership(user, org, RoleSubject(role), ""));
  }

  lemma LoginKeepsDirectory(t: Tables, org: string, key: string, email: string, user: Id, role: Id)
    requires RolesBelow(t)
    ensures DirectoryKept(t, WithSession(LoginMembership(LoginUser(t, key, email, user), org, user, role), user))
  {
    hide LoginMembership;
    LoginMembershipKeepsDirectory(LoginUser(t, key, email, user), org, user, role);
  }

  lemma RedeemKeepsDirectory(t: Tables, invitation: Id, user: Id)
    ensures DirectoryKept(t, AccessWrite(t, Redeem(invitation, user)))
  {
    hide HasSubject, InsertMembership;
    if invitation in t.invitations {
      var i := t.invitations[invitation];
      InsertKeepsDirectory(t, Membership(user, i.org, i.subject, ""));
    }
  }

  lemma DeletingKeepsDirectory(t: Tables, ids: set<Id>)
    ensures DirectoryKept(t, DeleteMemberships(t, ids))
  {
  }

  lemma AccessWriteKeepsDirectory(t: Tables, op: AccessOp)
    requires RolesBelow(t)
    ensures DirectoryKept(t, AccessWrite(t, op))
  {
    hide RolesBelow, HasSubject, InsertAll, InsertMembership, DeleteMemberships, MembershipIdsOf;
    match op
    case Login(org, key, email, user, role) =>
      hide LoginMembership, LoginUser, WithSession;
      LoginKeepsDirectory(t, org, key, email, user, role);
    case Redeem(invitation, user) => RedeemKeepsDirectory(t, invitation, user);
    case GrantByHuman(org, user, subject, scope) => InsertKeepsDirectory(t, Membership(user, org, subject, scope));
    case ReplaceByHuman(org, user, requests) =>
      var left := DeleteMemberships(t, MembershipIdsOf(t.memberships, org, user));
      DeletingKeepsDirectory(t, MembershipIdsOf(t.memberships, org, user));
      InsertAllKeepsDirectory(left, org, user, requests);
    case RemoveByHuman(membership) => DeletingKeepsDirectory(t, {membership});
  }
}
