/**
 * Administering an organization's own roles.  The built-in roles are out of its
 * reach, and a role can be deleted only while no membership holds it; the
 * mappings to a deleted role go with it.
 */
module RoleOperations {
  import opened Common
  import opened ScimTables
  import opened ScimReconcile
  import opened ReconcileTheorems

  datatype RoleOp =
    | ListRoles(org: string)
    | CreateRole(org: string, name: string)
    | RenameRole(role: Id, name: string)
    | DeleteRole(role: Id)

  predicate IsBuiltin(name: string) {
    name == ADMIN || name == DEPLOYER || name == VIEWER
  }

  predicate Assigned(t: Tables, role: Id) {
    exists m :: m in t.memberships && t.memberships[m].subject == RoleSubject(role)
  }

  predicate RoleExists(roles: map<Id, Role>, role: Role) {
    exists id :: id in roles && roles[id] == role
  }

  predicate RoleOpAllowed(t: Tables, op: RoleOp) {
    match op
    case ListRoles(_) => true
    case CreateRole(org, name) => !IsBuiltin(name) && !RoleExists(t.roles, Role(org, name))
    case RenameRole(role, name) =>
      && role in t.roles && !IsBuiltin(t.roles[role].name) && !IsBuiltin(name)
      && !RoleExists(t.roles - {role}, Role(t.roles[role].org, name))
    case DeleteRole(role) => role in t.roles && !IsBuiltin(t.roles[role].name) && !Assigned(t, role)
  }

  function MappingsWithout(mappings: map<(string, string), Id>, role: Id): map<(string, string), Id> {
    map k | k in mappings && mappings[k] != role :: mappings[k]
  }

  function RolesAfter(t: Tables, op: RoleOp): map<Id, Role> {
    match op
    case ListRoles(org) => ListedOrSeeded(t, org).roles
    case CreateRole(org, name) => t.roles[t.nextId := Role(org, name)]
    case RenameRole(role, name) => if role in t.roles then t.roles[role := Role(t.roles[role].org, name)] else t.roles
    case DeleteRole(role) => t.roles - {role}
  }

  function MappingsAfter(t: Tables, op: RoleOp): map<(string, string), Id> {
    if op.DeleteRole? then MappingsWithout(t.mappings, op.role) else t.mappings
  }

  function NextIdAfter(t: Tables, op: RoleOp): (next: Id)
    ensures next >= t.nextId
  {
    match op
    case ListRoles(org) => ListedOrSeeded(t, org).nextId
    case CreateRole(_, _) => t.nextId + 1
    case _ => t.nextId
  }

  function RoleWrite(t: Tables, op: RoleOp): Tables {
    t.(roles := RolesAfter(t, op), mappings := MappingsAfter(t, op), nextId := NextIdAfter(t, op))
  }

  /** A committed change of roles. */
  predicate RoleCommits(t: Tables, op: RoleOp, t': Tables) {
    RoleOpAllowed(t, op) && t' == RoleWrite(t, op)
  }

  lemma RolesConsistent(t: Tables, t': Tables)
    requires Consistent(t) && t' == t.(roles := t'.roles, mappings := t'.mappings, nextId := t'.nextId) && t.nextId <= t'.nextId
    requires MappingsWellFormed(t'.mappings, t'.roles) && UniqueRoleNames(t'.roles) && forall id :: id in t'.roles ==> id < t'.nextId
    ensures Consistent(t') && Grants(t') == Grants(t)
  {
    hide UniqueMemberships, UniqueLiveRows, ManagedShape, GroupsWellFormed, MappingsWellFormed, UniqueRoleNames;
  }

  lemma RenamedRoles(mappings: map<(string, string), Id>, roles: map<Id, Role>, role: Id, name: string)
    requires MappingsWellFormed(mappings, roles) && UniqueRoleNames(roles) && role in roles
    requires !RoleExists(roles - {role}, Role(roles[role].org, name))
    ensures var roles' := roles[role := Role(roles[role].org, name)]; MappingsWellFormed(mappings, roles') && UniqueRoleNames(roles')
  {
    var others := roles - {role};
    assert forall id :: id in roles && id != role ==> id in others && others[id] == roles[id];
  }

  lemma LessRoles(mappings: map<(string, string), Id>, roles: map<Id, Role>, role: Id)
    requires MappingsWellFormed(mappings, roles) && UniqueRoleNames(roles)
    ensures MappingsWellFormed(MappingsWithout(mappings, role), roles - {role}) && UniqueRoleNames(roles - {role})
  {
  }

  lemma MoreRoles(mappings: map<(string, string), Id>, roles: map<Id, Role>, id: Id, role: Role)
    requires MappingsWellFormed(mappings, roles) && UniqueRoleNames(roles) && id !in roles && !RoleExists(roles, role)
    ensures MappingsWellFormed(mappings, roles[id := role]) && UniqueRoleNames(roles[id := role])
  {
  }

  /** Changing roles keeps every constraint and touches no grant. */
  lemma RoleWriteConsistent(t: Tables, op: RoleOp)
    requires Consistent(t) && RoleOpAllowed(t, op)
    ensures Consistent(RoleWrite(t, op)) && Grants(RoleWrite(t, op)) == Grants(t)
  {
    hide Grants, MappingsWellFormed, UniqueRoleNames, RoleExists, UniqueMemberships, UniqueLiveRows, ManagedShape, GroupsWellFormed, UsersExist;
    match op {
      case ListRoles(org) => SeededConsistent(t, org);
      case CreateRole(org, name) => MoreRoles(t.mappings, t.roles, t.nextId, Role(org, name));
      case RenameRole(role, name) => RenamedRoles(t.mappings, t.roles, role, name);
      case DeleteRole(role) => LessRoles(t.mappings, t.roles, role);
    }
    RolesConsistent(t, RoleWrite(t, op));
  }

  // -------------------------------------------------------------- the maintained view

  /** Built-in roles stay what they are. */
  lemma ViewerRolesStay(t: Tables, op: RoleOp, org: string, role: Id)
    requires IdsBelow(t) && RoleOpAllowed(t, op) && IsViewer(t.roles, org, role)
    ensures IsViewer(RoleWrite(t, op).roles, org, role)
  {
    hide RoleExists, Assigned, HasRoles;
    if op.ListRoles? {
      BuiltinsAdded(t.roles, op.org, t.nextId);
    }
  }

  /** A role somebody was given through a mapping cannot be deleted. */
  lemma MappedRolesStay(t: Tables, op: RoleOp, id: Id)
    requires RoleOpAllowed(t, op) && InView(t, id)
    ensures MappedRoles(RoleWrite(t, op).groups, RoleWrite(t, op).mappings, id) == MappedRoles(t.groups, t.mappings, id)
  {
    hide Grants, RoleExists, HasRoles, WithBuiltins, Assigned;
    if op.DeleteRole? {
      if op.role in MappedRoles(t.groups, t.mappings, id) {
        HeldIsAssigned(t, t.rows[id], op.role);
      }
      UnmappedRole(t.groups, t.mappings, id, op.role);
    }
  }

  lemma HeldIsAssigned(t: Tables, row: ScimRow, role: Id)
    requires Held(Grants(t), RoleMembership(row, role))
    ensures Assigned(t, role)
  {
  }

  lemma UnmappedRole(groups: map<Id, Group>, mappings: map<(string, string), Id>, id: Id, role: Id)
    requires role !in MappedRoles(groups, mappings, id)
    ensures MappedRoles(groups, MappingsWithout(mappings, role), id) == MappedRoles(groups, mappings, id)
  {
    var left := MappingsWithout(mappings, role);
    forall g | g in groups && MappedThrough(groups[g], mappings, id)
      ensures MappedThrough(groups[g], left, id) && left[(groups[g].org, Lower(groups[g].name))] == mappings[(groups[g].org, Lower(groups[g].name))]
    {
      assert mappings[(groups[g].org, Lower(groups[g].name))] in MappedRoles(groups, mappings, id);
    }
  }

  /** Whoever has what the directory calls for still has it after a change of roles. */
  lemma RoleTransactionKeepsUser(t: Tables, op: RoleOp, t': Tables, id: Id)
    requires Consistent(t) && InView(t, id) && RoleCommits(t, op, t')
    ensures InView(t', id)
  {
    hide Consistent, Grants, MappedRoles, RolesAfter, MappingsAfter, NextIdAfter, RoleOpAllowed;
    RoleWriteConsistent(t, op);
    MappedRolesStay(t, op, id);
    assert IdsBelow(t) by { ConsistentIds(t); }
    forall g | g in Grants(t') && g.owner == Scim(id) ensures OwnedRole(t', id, g) {
      assert OwnedRole(t, id, g);
      if MappedRoles(t.groups, t.mappings, id) == {} {
        ViewerRolesStay(t, op, t.rows[id].org, g.membership.subject.role);
      }
    }
  }

  lemma ConsistentIds(t: Tables)
    requires Consistent(t)
    ensures IdsBelow(t)
  {
  }
}
