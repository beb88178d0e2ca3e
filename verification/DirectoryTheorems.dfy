/**
 * What groups and role mappings mean, in terms of the stored rows: who gets
 * which role from the directory, and who loses it.
 */
module DirectoryTheorems {
  import opened Common
  import opened ScimTables
  import opened ScimReconcile
  import opened ReconcileTheorems
  import opened ScimOperations
  import opened AccessOperations
  import opened RoleOperations
  import opened ScimTheorems

  // --------------------------------------------------------------- mapped group names

  /** Mappings are stored under lower-cased group names. */
  predicate LowerKeys(mappings: map<(string, string), Id>) {
    forall key :: key in mappings ==> NoCapitals(key.1)
  }

  /** The user is in a group of the mapping's organization and name, whatever the name's case. */
  predicate MappedTo(t: Tables, id: Id, role: Id) {
    exists g, key :: g in t.groups && key in t.mappings && MapsGroup(t, g, key) && id in t.groups[g].members && t.mappings[key] == role
  }

  predicate MapsGroup(t: Tables, g: Id, key: (string, string))
    requires g in t.groups
  {
    key.0 == t.groups[g].org && SameText(key.1, t.groups[g].name)
  }

  lemma MappedRolesAre(t: Tables, id: Id, role: Id)
    requires LowerKeys(t.mappings)
    ensures role in MappedRoles(t.groups, t.mappings, id) <==> MappedTo(t, id, role)
  {
    hide Lower, SameText;
    if role in MappedRoles(t.groups, t.mappings, id) {
      var g :| g in t.groups && MappedThrough(t.groups[g], t.mappings, id) && t.mappings[(t.groups[g].org, Lower(t.groups[g].name))] == role;
      var key := (t.groups[g].org, Lower(t.groups[g].name));
      KeyMapsGroup(t, g, key);
      assert MapsGroup(t, g, key);
    }
    if MappedTo(t, id, role) {
      var g, key :| g in t.groups && key in t.mappings && MapsGroup(t, g, key) && id in t.groups[g].members && t.mappings[key] == role;
      KeyMapsGroup(t, g, key);
      assert MappedThrough(t.groups[g], t.mappings, id);
    }
  }

  lemma KeyMapsGroup(t: Tables, g: Id, key: (string, string))
    requires g in t.groups && NoCapitals(key.1)
    ensures MapsGroup(t, g, key) <==> key == (t.groups[g].org, Lower(t.groups[g].name))
  {
    LowerIsLower(key.1);
    LowerIff(key.1, t.groups[g].name);
  }

  lemma ReconcileKeepsMappings(w: Tables, t': Tables, org: string, ids: set<Id>, viewer: Id)
    requires ReconciledTo(w, t', org, ids, viewer)
    ensures t'.mappings == w.mappings && t'.groups == w.groups && t'.rows == w.rows
  {
    hide Consistent, Grants, Reconciled, NeedsViewer, Targets, RolesListedOrSeeded;
  }

  lemma GroupWriteKeepsLowerKeys(t: Tables, op: GroupOp)
    requires LowerKeys(t.mappings)
    ensures LowerKeys(GroupWrite(t, op).mappings)
  {
    hide Lower, NoCapitals;
    if op.SaveMapping? {
      LowerIsLower(op.name);
    }
  }

  /** Every transaction stores mappings under lower-cased names. */
  lemma TransactionKeepsLowerKeys(t: Tables, x: Transaction, t': Tables)
    requires Consistent(t) && Commits(t, x, t') && LowerKeys(t.mappings)
    ensures LowerKeys(t'.mappings)
  {
    hide Consistent, ReconciledTo, UserOpAllowed, GroupOpAllowed, AccessWrite, AccessOpAllowed, RolesAfter, NextIdAfter, RoleOpAllowed, UserWrite;
    hide NoCapitals, GroupWrite, Concerned;
    match x
    case OfUser(op) =>
      var viewer :| UserCommits(t, op, t', viewer);
      ReconcileKeepsMappings(UserWrite(t, op), t', UserOpOrg(op), UserReconciles(t, op), viewer);
      UserWriteTables(t, op);
    case OfGroup(op) =>
      var viewer :| GroupCommits(t, op, t', viewer);
      ReconcileKeepsMappings(GroupWrite(t, op), t', GroupOpOrg(t, op), GroupReconciles(t, op), viewer);
      GroupWriteKeepsLowerKeys(t, op);
    case OfAccess(op) =>
      ConsistentGroups(t);
      AccessWriteKeepsDirectory(t, op);
    case OfRole(_) =>
  }

  lemma {:induction false} RunsKeepLowerKeys(t: Tables, xs: seq<Transaction>, t': Tables)
    requires Consistent(t) && Runs(t, xs, t') && LowerKeys(t.mappings)
    ensures LowerKeys(t'.mappings)
    decreases |xs|
  {
    hide Consistent, Commits, LowerKeys;
    if xs != [] {
      var mid :| Commits(t, xs[0], mid) && Runs(mid, xs[1..], t');
      CommitConsistent(t, xs[0], mid);
      TransactionKeepsLowerKeys(t, xs[0], mid);
      RunsKeepLowerKeys(mid, xs[1..], t');
    }
  }

  // ------------------------------------------------------------- what being in view is

  /** An organization-wide membership of the record's user in the role. */
  predicate Holds(t: Tables, id: Id, role: Id)
    requires id in t.rows
  {
    exists m :: m in t.memberships && t.memberships[m] == Membership(t.rows[id].user, t.rows[id].org, RoleSubject(role), "")
  }

  predicate HoldsSomeRole(t: Tables, id: Id)
    requires id in t.rows
  {
    exists m :: m in t.memberships && t.memberships[m].user == t.rows[id].user && t.memberships[m].org == t.rows[id].org
      && t.memberships[m].subject.RoleSubject?
  }

  /** A membership made for this record is in a role mapped to it, or in Viewer because none is. */
  ghost predicate MarkedRight(t: Tables, id: Id, m: Id)
    requires id in t.rows && m in t.memberships
  {
    t.memberships[m].subject.RoleSubject? &&
    var role := t.memberships[m].subject.role;
    MappedTo(t, id, role) || ((forall r :: !MappedTo(t, id, r)) && role in t.roles && t.roles[role] == Role(t.rows[id].org, "Viewer"))
  }

  /** In terms of the tables: a record in view holds every mapped role, has only such memberships made for it, and some role. */
  lemma ViewMeans(t: Tables, id: Id)
    requires Consistent(t) && LowerKeys(t.mappings) && id in t.rows
    ensures InView(t, id) <==>
      && (forall role :: MappedTo(t, id, role) ==> Holds(t, id, role))
      && (forall m :: m in t.managed && t.managed[m] == id ==> m in t.memberships && MarkedRight(t, id, m))
      && HoldsSomeRole(t, id)
  {
    hide LowerKeys, MappedTo, MappedRoles, UniqueMemberships, UniqueLiveRows, GroupsWellFormed, MappingsWellFormed, UniqueRoleNames, UsersExist, IdsBelow;
    forall role ensures role in MappedRoles(t.groups, t.mappings, id) <==> MappedTo(t, id, role) {
      MappedRolesAre(t, id, role);
    }
    forall role ensures Held(Grants(t), RoleMembership(t.rows[id], role)) <==> Holds(t, id, role) {
      HeldIsStored(t, RoleMembership(t.rows[id], role));
    }
    assert HoldsARole(Grants(t), t.rows[id]) <==> HoldsSomeRole(t, id) by { SomeRoleIsStored(t, id); }
    forall m | m in t.managed && t.managed[m] == id ensures m in t.memberships && GrantOf(t, m) in Grants(t) && GrantOf(t, m).owner == Scim(id) {
    }
    if InView(t, id) {
      forall m | m in t.managed && t.managed[m] == id ensures MarkedRight(t, id, m) {
        assert OwnedRole(t, id, GrantOf(t, m));
      }
    }
    if forall m :: m in t.managed && t.managed[m] == id ==> m in t.memberships && MarkedRight(t, id, m) {
      forall g | g in Grants(t) && g.owner == Scim(id) ensures OwnedRole(t, id, g) {
        var m :| m in t.memberships && g == Grant(t.memberships[m], OwnerOf(t.managed, m));
        assert MarkedRight(t, id, m);
      }
    }
  }

  lemma SomeRoleIsStored(t: Tables, id: Id)
    requires id in t.rows
    ensures HoldsARole(Grants(t), t.rows[id]) <==> HoldsSomeRole(t, id)
  {
    if HoldsARole(Grants(t), t.rows[id]) {
      var g :| g in Grants(t) && Belongs(g, t.rows[id].org, t.rows[id].user) && g.membership.subject.RoleSubject?;
      var m :| m in t.memberships && g == Grant(t.memberships[m], OwnerOf(t.managed, m));
    }
    if m :| m in t.memberships && t.memberships[m].user == t.rows[id].user && t.memberships[m].org == t.rows[id].org && t.memberships[m].subject.RoleSubject? {
      assert GrantOf(t, m) in Grants(t);
    }
  }

  // -------------------------------------------------- what a reconciliation changes

  /** The user has a role in the organization that was not given on behalf of this record. */
  predicate HasOtherRole(t: Tables, id: Id)
    requires id in t.rows
  {
    exists m :: m in t.memberships && t.memberships[m].user == t.rows[id].user && t.memberships[m].org == t.rows[id].org
      && t.memberships[m].subject.RoleSubject? && !(m in t.managed && t.managed[m] == id)
  }

  /** The directory calls for the role: it is mapped to the record, or it is the fallback of a record that would have none. */
  ghost predicate CalledFor(t: Tables, id: Id, role: Id, viewer: Id)
    requires id in t.rows
  {
    MappedTo(t, id, role) || (role == viewer && (forall r :: !MappedTo(t, id, r)) && !HasOtherRole(t, id))
  }

  lemma OtherRoleIsManual(t: Tables, id: Id)
    requires id in t.rows
    ensures HasManualRole(Grants(t), t.rows[id], id) <==> HasOtherRole(t, id)
  {
    if HasManualRole(Grants(t), t.rows[id], id) {
      var g :| g in Grants(t) && Belongs(g, t.rows[id].org, t.rows[id].user) && g.membership.subject.RoleSubject? && g.owner != Scim(id);
      var m :| m in t.memberships && g == Grant(t.memberships[m], OwnerOf(t.managed, m));
    }
    if HasOtherRole(t, id) {
      var m :| m in t.memberships && t.memberships[m].user == t.rows[id].user && t.memberships[m].org == t.rows[id].org
        && t.memberships[m].subject.RoleSubject? && !(m in t.managed && t.managed[m] == id);
      assert GrantOf(t, m) in Grants(t) && GrantOf(t, m).owner != Scim(id);
    }
  }

  lemma TargetIsCalledFor(t: Tables, id: Id, role: Id, viewer: Id)
    requires LowerKeys(t.mappings) && id in t.rows
    ensures role in Target(t, id, viewer) <==> CalledFor(t, id, role, viewer)
  {
    hide LowerKeys, MappedTo, MappedRoles, HasManualRole, HasOtherRole;
    forall r ensures r in MappedRoles(t.groups, t.mappings, id) <==> MappedTo(t, id, r) {
      MappedRolesAre(t, id, r);
    }
    OtherRoleIsManual(t, id);
    if MappedRoles(t.groups, t.mappings, id) != {} {
      var r :| r in MappedRoles(t.groups, t.mappings, id);
      assert MappedTo(t, id, r);
    }
  }

  /**
   * Of the memberships made for the reconciled records those no longer called for
   * go, those called for that the user does not have come, and nothing else moves.
   * A fallback role is the organization's Viewer.
   */
  lemma ReconcileMoves(w: Tables, t': Tables, org: string, ids: set<Id>, viewer: Id, g: Grant)
    requires Consistent(w) && LowerKeys(w.mappings) && LiveIds(w.rows, ids) && ReconciledTo(w, t', org, ids, viewer)
    ensures g in Grants(w) && !(g.owner.Scim? && g.owner.row in ids) ==> g in Grants(t')
    ensures g in Grants(w) && g.owner.Scim? && g.owner.row in ids ==>
      (g in Grants(t') <==> g.membership.subject.RoleSubject? && CalledFor(w, g.owner.row, g.membership.subject.role, viewer))
    ensures g !in Grants(w) ==>
      (g in Grants(t') <==>
        && g.owner.Scim? && g.owner.row in ids && g.membership.subject.RoleSubject?
        && CalledFor(w, g.owner.row, g.membership.subject.role, viewer)
        && g.membership == Membership(w.rows[g.owner.row].user, w.rows[g.owner.row].org, g.membership.subject, "")
        && g.membership !in w.memberships.Values)
    ensures (exists id :: id in ids && (forall r :: !MappedTo(w, id, r)) && !HasOtherRole(w, id)) ==>
      viewer in t'.roles && t'.roles[viewer] == Role(org, "Viewer")
  {
    hide Consistent, Grants, LowerKeys, MappedTo, CalledFor, HasOtherRole, Target, Held;
    if g.owner.Scim? && g.owner.row in ids && g.membership.subject.RoleSubject? {
      TargetIsCalledFor(w, g.owner.row, g.membership.subject.role, viewer);
      if CalledFor(w, g.owner.row, g.membership.subject.role, viewer) {
        HeldAfterStale(w, ids, viewer, g.owner.row, g.membership.subject.role);
      }
    }
    if id :| id in ids && (forall r :: !MappedTo(w, id, r)) && !HasOtherRole(w, id) {
      FallbackNeeded(w, id);
    }
  }

  lemma FallbackNeeded(t: Tables, id: Id)
    requires LowerKeys(t.mappings) && id in t.rows && (forall r :: !MappedTo(t, id, r)) && !HasOtherRole(t, id)
    ensures NeedsViewer(t, id)
  {
    hide LowerKeys, MappedTo, MappedRoles, HasManualRole, HasOtherRole, Grants;
    OtherRoleIsManual(t, id);
    if MappedRoles(t.groups, t.mappings, id) != {} {
      var r :| r in MappedRoles(t.groups, t.mappings, id);
      MappedRolesAre(t, id, r);
    }
  }

  /** A wanted role's membership is never among the stale ones. */
  lemma HeldAfterStale(t: Tables, ids: set<Id>, viewer: Id, id: Id, role: Id)
    requires Consistent(t) && LiveIds(t.rows, ids) && id in ids && role in Target(t, id, viewer)
    ensures var m := RoleMembership(t.rows[id], role);
      Held(Grants(t) - Stale(Grants(t), Targets(t, ids, viewer)), m) <==> m in t.memberships.Values
  {
    hide Consistent, Grants, Target;
    var m := RoleMembership(t.rows[id], role);
    HeldIsStored(t, m);
    GrantsAreManagedFor(t);
    ConsistentUnique(t);
    if g :| g in Grants(t) && g.membership == m {
      if g in Stale(Grants(t), Targets(t, ids, viewer)) {
        OneLiveRow(t.rows, g.owner.row, id);
      }
    }
  }

  // ------------------------------------------------------ group and mapping changes

  /** The mapping stored for the organization's groups of this name. */
  predicate MapsName(key: (string, string), org: string, name: string) {
    key.0 == org && NoCapitals(key.1) && SameText(key.1, name)
  }

  lemma MapsNameIff(key: (string, string), org: string, name: string)
    ensures MapsName(key, org, name) <==> key == (org, Lower(name))
  {
    LowerIsLower(key.1);
    LowerIsLower(name);
    LowerIff(key.1, name);
  }

  /** What group and mapping changes store; a saved group has a name of its own and live members of its organization. */
  lemma GroupTablesAfter(t: Tables, op: GroupOp, t': Tables, viewer: Id)
    requires GroupCommits(t, op, t', viewer)
    ensures op.SaveGroup? ==>
      && t'.groups == t.groups[op.id := op.group] && t'.mappings == t.mappings
      && (forall g :: g in t.groups && g != op.id && t.groups[g].org == op.group.org ==> !SameText(t.groups[g].name, op.group.name))
      && (forall m :: m in op.group.members ==> m in t.rows && !t.rows[m].deleted && t.rows[m].org == op.group.org)
    ensures op.DeleteGroup? ==> op.id in t.groups && t'.groups == t.groups - {op.id} && t'.mappings == t.mappings
    ensures op.SaveMapping? ==>
      && op.role in t.roles && t.roles[op.role].org == op.org && t'.groups == t.groups
      && (forall key :: MapsName(key, op.org, op.name) ==> key in t'.mappings && t'.mappings[key] == op.role)
      && (forall key :: !MapsName(key, op.org, op.name) ==>
            (key in t'.mappings <==> key in t.mappings) && (key in t.mappings ==> t'.mappings[key] == t.mappings[key]))
    ensures op.DeleteMapping? ==>
      && t'.groups == t.groups
      && (exists key :: key in t.mappings && MapsName(key, op.org, op.name))
      && (forall key :: key in t'.mappings <==> key in t.mappings && !MapsName(key, op.org, op.name))
      && (forall key :: key in t'.mappings ==> t'.mappings[key] == t.mappings[key])
  {
    hide ReconciledTo, Lower, SameText, MapsName;
    ReconcileKeepsMappings(GroupWrite(t, op), t', GroupOpOrg(t, op), GroupReconciles(t, op), viewer);
    match op
    case SaveGroup(id, group) =>
      forall g | g in t.groups && g != id && t.groups[g].org == group.org ensures !SameText(t.groups[g].name, group.name) {
        LowerIff(t.groups[g].name, group.name);
        assert !SameName(t.groups[g], group);
      }
    case DeleteGroup(_) =>
    case SaveMapping(org, name, _) =>
      forall key ensures MapsName(key, org, name) <==> key == (org, Lower(name)) { MapsNameIff(key, org, name); }
    case DeleteMapping(org, name) =>
      forall key ensures MapsName(key, org, name) <==> key == (org, Lower(name)) { MapsNameIff(key, org, name); }
  }

  /** The records a change may give or take roles: members before or after it, and members of the groups it maps. */
  ghost predicate Touches(t: Tables, op: GroupOp, id: Id) {
    match op
    case SaveGroup(g, group) => id in group.members || (g in t.groups && id in t.groups[g].members)
    case DeleteGroup(g) => g in t.groups && id in t.groups[g].members
    case SaveMapping(org, name, _) => exists g :: g in t.groups && t.groups[g].org == org && SameText(t.groups[g].name, name) && id in t.groups[g].members
    case DeleteMapping(org, name) => exists g :: g in t.groups && t.groups[g].org == org && SameText(t.groups[g].name, name) && id in t.groups[g].members
  }

  lemma TouchedAreConcerned(t: Tables, op: GroupOp, id: Id)
    requires Touches(t, op, id)
    ensures id in Concerned(t, op)
  {
    hide Lower, SameText;
    if op.SaveMapping? || op.DeleteMapping? {
      var g :| g in t.groups && t.groups[g].org == op.org && SameText(t.groups[g].name, op.name) && id in t.groups[g].members;
      LowerIff(t.groups[g].name, op.name);
      assert id in MembersNamed(t.groups, op.org, op.name);
    }
  }

  /** Every active record a change touches is in view after it, whatever it was before. */
  lemma TouchedAreInView(t: Tables, op: GroupOp, t': Tables, viewer: Id, id: Id)
    requires Consistent(t) && GroupCommits(t, op, t', viewer) && Touches(t, op, id)
    requires id in t.rows && t.rows[id].active && !t.rows[id].deleted
    ensures InView(t', id)
  {
    hide Consistent, Grants, MappedRoles, InView, Reconciled, GroupsWellFormed, Concerned, Touches, GroupOpAllowed;
    ConsistentGroups(t);
    TouchedAreConcerned(t, op, id);
    ConcernedAreOfOrg(t, op, id);
    GroupWriteConsistent(t, op);
    assert id in GroupReconciles(t, op);
    ReconciledIsInView(GroupWrite(t, op), t', GroupOpOrg(t, op), GroupReconciles(t, op), viewer, id);
  }

  /** Mapping a group's name gives the role to its active members, at once. */
  lemma MappingGivesRole(t: Tables, op: GroupOp, t': Tables, viewer: Id, g: Id, id: Id)
    requires Consistent(t) && LowerKeys(t.mappings) && op.SaveMapping? && GroupCommits(t, op, t', viewer)
    requires g in t.groups && t.groups[g].org == op.org && SameText(t.groups[g].name, op.name) && id in t.groups[g].members
    requires id in t.rows && t.rows[id].active && !t.rows[id].deleted
    ensures id in t'.rows && Holds(t', id, op.role)
  {
    hide Consistent, Grants, LowerKeys, SameText, Lower, ReconciledTo, GroupOpAllowed, InView, Holds;
    GroupTablesAfter(t, op, t', viewer);
    GroupTransactionSays(t, op, t', viewer);
    TouchedAreInView(t, op, t', viewer, id);
    GroupsNamed(t.groups[g].name, op.name);
    var key := (op.org, Lower(op.name));
    MapsNameIff(key, op.org, op.name);
    KeyMapsGroup(t', g, key) by { LowerIsLower(op.name); }
    assert MappedTo(t', id, op.role);
    ViewMeans(t', id);
  }

  lemma GroupsNamed(a: string, b: string)
    ensures SameText(a, b) <==> Lower(a) == Lower(b)
  {
    LowerIff(a, b);
  }

  lemma GroupTransactionSays(t: Tables, op: GroupOp, t': Tables, viewer: Id)
    requires Consistent(t) && LowerKeys(t.mappings) && GroupCommits(t, op, t', viewer)
    ensures t'.rows == t.rows && Consistent(t') && LowerKeys(t'.mappings)
  {
    hide Consistent, LowerKeys, GroupCommits;
    GroupTransactionsSayNothing(t, op, t', viewer);
    CommitConsistent(t, OfGroup(op), t');
    TransactionKeepsLowerKeys(t, OfGroup(op), t');
  }

  /** Taking a member out of the only group that maps a role takes the role from them, unless somebody else gave it. */
  lemma LeavingTakesRole(t: Tables, op: GroupOp, t': Tables, viewer: Id, id: Id, role: Id)
    requires Consistent(t) && LowerKeys(t.mappings) && GroupCommits(t, op, t', viewer) && Touches(t, op, id)
    requires id in t.rows && t.rows[id].active && !t.rows[id].deleted
    requires !MappedTo(t', id, role) && role in t.roles && t.roles[role].name != "Viewer"
    ensures forall m :: m in t'.managed && t'.managed[m] == id ==> m in t'.memberships && t'.memberships[m].subject != RoleSubject(role)
  {
    hide Consistent, Grants, LowerKeys, MappedTo, Touches, InView;
    GroupTransactionSays(t, op, t', viewer);
    TouchedAreInView(t, op, t', viewer, id);
    ViewMeans(t', id);
    RolesStayNamed(t, op, t', viewer, role);
  }

  lemma RolesStayNamed(t: Tables, op: GroupOp, t': Tables, viewer: Id, role: Id)
    requires GroupCommits(t, op, t', viewer) && role in t.roles
    ensures role in t'.roles && t'.roles[role] == t.roles[role]
  {
    hide Consistent, Grants, Reconciled, NeedsViewer, Targets, RolesListedOrSeeded, GroupOpAllowed;
  }

  // --------------------------------------------------------------- the roles themselves

  predicate IsOwnName(name: string) {
    name !in {"Admin", "Deployer", "Viewer"}
  }

  /** What role changes are let through: built-in roles stay out of reach, names are unique, and nobody loses a role they hold. */
  lemma RoleChangesAllowed(t: Tables, op: RoleOp)
    ensures RoleOpAllowed(t, op) <==>
      match op
      case ListRoles(_) => true
      case CreateRole(org, name) => IsOwnName(name) && forall r :: r in t.roles && t.roles[r].org == org ==> t.roles[r].name != name
      case RenameRole(role, name) =>
        && role in t.roles && IsOwnName(t.roles[role].name) && IsOwnName(name)
        && forall r :: r in t.roles && r != role && t.roles[r].org == t.roles[role].org ==> t.roles[r].name != name
      case DeleteRole(role) =>
        && role in t.roles && IsOwnName(t.roles[role].name)
        && forall m :: m in t.memberships ==> t.memberships[m].subject != RoleSubject(role)
  {
    if op.RenameRole? && op.role in t.roles {
      var others := t.roles - {op.role};
      assert forall r :: r in t.roles && r != op.role ==> r in others && others[r] == t.roles[r];
    }
  }

  predicate NewId(roles: map<Id, Role>, id: Id) {
    id !in roles
  }

  predicate NewIds(roles: map<Id, Role>, a: Id, b: Id, c: Id) {
    NewId(roles, a) && NewId(roles, b) && NewId(roles, c) && a != b && a != c && b != c
  }

  /** Listing an organization's roles makes the three built-in ones exactly if it has none; the rest is as requested. */
  lemma RoleChangesStore(t: Tables, op: RoleOp, t': Tables)
    requires Consistent(t) && RoleCommits(t, op, t')
    ensures op.ListRoles? ==>
      if exists r :: r in t.roles && t.roles[r].org == op.org then t'.roles == t.roles
      else exists a, d, v :: NewIds(t.roles, a, d, v)
             && t'.roles == t.roles[a := Role(op.org, "Admin")][d := Role(op.org, "Deployer")][v := Role(op.org, "Viewer")]
    ensures op.CreateRole? ==> exists id :: NewId(t.roles, id) && t'.roles == t.roles[id := Role(op.org, op.name)]
    ensures op.RenameRole? ==> op.role in t.roles && t'.roles == t.roles[op.role := Role(t.roles[op.role].org, op.name)]
    ensures op.DeleteRole? ==> t'.roles == t.roles - {op.role} && forall key :: key in t'.mappings <==> key in t.mappings && t.mappings[key] != op.role
    ensures !op.DeleteRole? ==> t'.mappings.Keys == t.mappings.Keys
    ensures forall key :: key in t'.mappings ==> t'.mappings[key] == t.mappings[key]
  {
    hide UniqueMemberships, UniqueLiveRows, ManagedShape, GroupsWellFormed, MappingsWellFormed, UniqueRoleNames, UsersExist, NextIdAfter;
    assert NewId(t.roles, t.nextId) && NewIds(t.roles, t.nextId, t.nextId + 1, t.nextId + 2);
    if op.ListRoles? && !HasRoles(t.roles, op.org) {
      assert t'.roles == WithBuiltins(t.roles, op.org, t.nextId);
    }
  }

  /** When a group or mapping change goes through: neither more nor less than this is asked. */
  lemma GroupChangesAllowed(t: Tables, op: GroupOp)
    ensures GroupOpAllowed(t, op) <==>
      match op
      case SaveGroup(id, group) =>
        && (if id in t.groups then t.groups[id].org == group.org else id == t.nextId)
        && (forall g :: g in t.groups && g != id && t.groups[g].org == group.org ==> !SameText(t.groups[g].name, group.name))
        && (forall m :: m in group.members ==> m in t.rows && !t.rows[m].deleted && t.rows[m].org == group.org)
      case DeleteGroup(id) => id in t.groups
      case SaveMapping(org, name, role) => role in t.roles && t.roles[role].org == org
      case DeleteMapping(org, name) => exists key :: key in t.mappings && MapsName(key, org, name)
  {
    hide Lower, SameText, MapsName;
    match op {
      case SaveGroup(id, group) =>
        forall g | g in t.groups ensures SameName(t.groups[g], group) <==> t.groups[g].org == group.org && SameText(t.groups[g].name, group.name) {
          LowerIff(t.groups[g].name, group.name);
        }
      case DeleteMapping(org, name) =>
        forall key ensures MapsName(key, org, name) <==> key == (org, Lower(name)) { MapsNameIff(key, org, name); }
      case _ =>
    }
  }

  /** A missing fallback: the organization has roles, and none of them is named Viewer. */
  lemma ViewerMissingIff(t: Tables, org: string)
    ensures ViewerMissing(t, org) <==>
      (exists r :: r in t.roles && t.roles[r].org == org) && forall r :: r in t.roles ==> t.roles[r] != Role(org, "Viewer")
  {
    if ViewerMissing(t, org) {
      forall r | r in t.roles ensures t.roles[r] != Role(org, "Viewer") {
        assert !IsViewer(t.roles, org, r);
      }
    }
  }
}
