/**
 * Where provisioning meets authorization: a transaction after which the server
 * asks only for a coalesced reload has added rows to the policy query and taken
 * none away, which is what the refresh protocol assumes of deferred reloads.
 */
module ReloadTheorems {
  import opened Common
  import opened Resources
  import opened Decision
  import opened ScimTables
  import opened ReconcileTheorems
  import opened ScimOperations
  import opened AccessOperations
  import opened RoleOperations
  import opened ScimTheorems
  import opened ScimServer
  import R = RefreshProtocol

  /** How the policy query writes ids and scopes, what the roles permit, and the bindings of service users. */
  datatype View = View(text: Id -> string, scope: string -> Option<Resource>, permissions: Id -> set<string>, services: set<Binding>)

  ghost predicate Faithful(view: View) {
    forall i, j :: view.text(i) == view.text(j) ==> i == j
  }

  function BindingOf(m: Membership, view: View): Binding
    requires m.subject.RoleSubject?
  {
    Binding(view.text(m.user), m.org, view.text(m.subject.role), view.scope(m.scope))
  }

  /** The tables as the authorization queries see them. */
  ghost function AsDatabase(t: Tables, view: View, h: Hierarchy): Database
    requires Faithful(view)
  {
    Database(
      (set m | m in t.memberships.Values && m.subject.RoleSubject? :: BindingOf(m, view)) + view.services,
      map id | id in t.roles :: (t.roles[id].org, view.text(id)) := view.permissions(id),
      h)
  }

  lemma StoredIffGranted(t: Tables, m: Membership)
    ensures m in t.memberships.Values <==> exists g :: g in Grants(t) && g.membership == m
  {
    if m in t.memberships.Values {
      var id :| id in t.memberships && t.memberships[id] == m;
      assert GrantOf(t, id) in Grants(t);
    }
  }

  predicate RolesKept(t: Tables, t': Tables) {
    forall id :: id in t.roles ==> id in t'.roles && t'.roles[id] == t.roles[id]
  }

  lemma BindingsGrow(t: Tables, t': Tables, view: View, h: Hierarchy)
    requires Faithful(view) && Grants(t) <= Grants(t')
    ensures AsDatabase(t, view, h).bindings <= AsDatabase(t', view, h).bindings
  {
    hide Grants, BindingOf;
    forall m | m in t.memberships.Values ensures m in t'.memberships.Values {
      StoredIffGranted(t, m);
      StoredIffGranted(t', m);
    }
  }

  lemma RolesStayReadable(t: Tables, t': Tables, view: View, h: Hierarchy, k: (string, string))
    requires Faithful(view) && RolesKept(t, t') && k in AsDatabase(t, view, h).roles
    ensures k in AsDatabase(t', view, h).roles && AsDatabase(t', view, h).roles[k] == AsDatabase(t, view, h).roles[k]
  {
    var id :| id in t.roles && k == (t.roles[id].org, view.text(id));
    assert id in t'.roles;
  }

  lemma RowsGrow(db: Database, db': Database)
    requires db.bindings <= db'.bindings && forall k :: k in db.roles ==> k in db'.roles && db'.roles[k] == db.roles[k]
    ensures PolicyRows(db) <= PolicyRows(db')
  {
    hide RowFor;
    assert forall b :: b in db.bindings ==> PermissionsOf(db, b) <= PermissionsOf(db', b);
  }

  /** More grants, and no role changed: more rows of the policy query. */
  lemma MoreGrantsMorePolicies(t: Tables, t': Tables, view: View, h: Hierarchy)
    requires Faithful(view) && Grants(t) <= Grants(t') && RolesKept(t, t')
    ensures PolicyRows(AsDatabase(t, view, h)) <= PolicyRows(AsDatabase(t', view, h))
  {
    hide Grants, RolesKept, AsDatabase, Faithful, PolicyRows;
    var db, db' := AsDatabase(t, view, h), AsDatabase(t', view, h);
    BindingsGrow(t, t', view, h);
    forall k | k in db.roles ensures k in db'.roles && db'.roles[k] == db.roles[k] {
      RolesStayReadable(t, t', view, h, k);
    }
    RowsGrow(db, db');
  }

  lemma SameHierarchy(t: Tables, view: View, h: Hierarchy)
    requires Faithful(view)
    ensures AsDatabase(t, view, h).hierarchy == h
  {
  }

  /** What a policy load reads. */
  ghost function TablesRead(db: Database): R.Tables {
    R.Tables(PolicyRows(db), Relations(db.hierarchy))
  }

  lemma UserTransactionKeepsRoles(t: Tables, op: UserOp, t': Tables, viewer: Id)
    requires UserCommits(t, op, t', viewer)
    ensures RolesKept(t, t')
  {
    hide Consistent, UserOpAllowed, Reconciled, UserWrite;
    UserWriteTables(t, op);
  }

  /**
   * The commit of a user transaction that took no grant away, and so need not
   * reload synchronously, is a granting commit of the refresh protocol.
   */
  lemma CoalescedReloadIsForAGrant(s: R.State, replica: nat, t: Tables, op: UserOp, t': Tables, viewer: Id, view: View, h: Hierarchy)
    requires Faithful(view) && s.WellFormed() && replica < |s.replicas|
    requires UserCommits(t, op, t', viewer) && Grants(t) <= Grants(t')
    requires s.Database() == TablesRead(AsDatabase(t, view, h))
    ensures R.RequestEnabled(s, R.CommitGrant(replica, TablesRead(AsDatabase(t', view, h))))
  {
    hide Grants, UserCommits, PolicyRows, AsDatabase;
    UserTransactionKeepsRoles(t, op, t', viewer);
    MoreGrantsMorePolicies(t, t', view, h);
    SameHierarchy(t, view, h);
    SameHierarchy(t', view, h);
  }

  // ------------------------------------------------------------- every transaction

  /** The reload the server asks for after each committed transaction. */
  predicate AsksFor(t: Tables, x: Transaction, t': Tables, reload: Reload) {
    match x
    case OfUser(_) => reload != NoReload && (reload != Synchronous ==> Grants(t) <= Grants(t'))
    case OfGroup(_) => reload == Synchronous
    case OfAccess(op) => reload == if op.Login? && AccessAdds(t, op) == {} then NoReload else Synchronous
    case OfRole(op) => reload == if op.ListRoles? then NoReload else Synchronous
  }

  /** Service users' bindings refer to stored roles as well. */
  ghost predicate ServicesExist(t: Tables, view: View)
    requires Faithful(view)
  {
    forall b :: b in view.services ==> (b.org, b.role) in AsDatabase(t, view, map[]).roles
  }

  lemma RowsAlike(db: Database, db': Database)
    requires db.bindings == db'.bindings && forall b :: b in db.bindings ==> PermissionsOf(db, b) == PermissionsOf(db', b)
    ensures PolicyRows(db) == PolicyRows(db')
  {
    hide RowFor, PermissionsOf;
  }

  /** Roles nobody holds make no difference to the policy query. */
  lemma NewRolesReadAlike(t: Tables, t': Tables, view: View, h: Hierarchy)
    requires Faithful(view) && t'.memberships == t.memberships && RolesKept(t, t') && BindingsHaveRoles(t, view)
    ensures PolicyRows(AsDatabase(t', view, h)) == PolicyRows(AsDatabase(t, view, h))
  {
    hide AsDatabase, RolesKept;
    var db, db' := AsDatabase(t, view, h), AsDatabase(t', view, h);
    SameBindings(t, t', view, h);
    forall b | b in db.bindings ensures PermissionsOf(db, b) == PermissionsOf(db', b) {
      SameRoles(t, view, h);
      RolesStayReadable(t, t', view, h, (b.org, b.role));
    }
    RowsAlike(db, db');
  }

  ghost predicate BindingsHaveRoles(t: Tables, view: View)
    requires Faithful(view)
  {
    forall b :: b in AsDatabase(t, view, map[]).bindings ==> (b.org, b.role) in AsDatabase(t, view, map[]).roles
  }

  lemma SameBindings(t: Tables, t': Tables, view: View, h: Hierarchy)
    requires Faithful(view) && t'.memberships == t.memberships
    ensures AsDatabase(t', view, h).bindings == AsDatabase(t, view, h).bindings == AsDatabase(t, view, map[]).bindings
  {
  }

  lemma SameRoles(t: Tables, view: View, h: Hierarchy)
    requires Faithful(view)
    ensures AsDatabase(t, view, h).roles == AsDatabase(t, view, map[]).roles
  {
  }

  lemma StoredRolesAreRead(t: Tables, view: View)
    requires Faithful(view) && RolesExist(t) && ServicesExist(t, view)
    ensures BindingsHaveRoles(t, view)
  {
    var db := AsDatabase(t, view, map[]);
    forall b | b in db.bindings ensures (b.org, b.role) in db.roles {
      if b !in view.services {
        var m :| m in t.memberships.Values && m.subject.RoleSubject? && b == BindingOf(m, view);
        var id :| id in t.memberships && t.memberships[id] == m;
        assert RoleStored(t.roles, t.memberships[id]);
        RoleIsRead(t, view, m.subject.role);
      }
    }
  }

  lemma RoleIsRead(t: Tables, view: View, role: Id)
    requires Faithful(view) && role in t.roles
    ensures (t.roles[role].org, view.text(role)) in AsDatabase(t, view, map[]).roles
  {
  }

  lemma QuietTransactionKeepsRoles(t: Tables, x: Transaction, t': Tables)
    requires Consistent(t) && Commits(t, x, t') && AsksFor(t, x, t', NoReload)
    ensures t'.memberships == t.memberships && RolesKept(t, t')
  {
    hide Consistent, LoginResolves;
    match x
    case OfAccess(op) =>
      hide ListedOrSeeded, InsertMembership, LoginRole;
    case OfRole(op) => ConsistentGroups(t); BuiltinsAdded(t.roles, op.org, t.nextId);
  }

  /**
   * Every transaction is a step of the refresh protocol on what a load reads: with a
   * synchronous reload any commit, with a coalesced one a granting commit, and
   * without a reload no commit at all, because a load would read the same.
   */
  lemma TransactionIsAStep(
      s: R.State, replica: nat, t: Tables, x: Transaction, t': Tables, reload: Reload, view: View, h: Hierarchy)
    requires Faithful(view) && s.WellFormed() && replica < |s.replicas| && s.Database() == TablesRead(AsDatabase(t, view, h))
    requires Consistent(t) && RolesExist(t) && ServicesExist(t, view) && Commits(t, x, t') && AsksFor(t, x, t', reload)
    ensures var after := TablesRead(AsDatabase(t', view, h));
      match reload
      case Synchronous => R.RequestEnabled(s, R.CommitChange(replica, after))
      case Coalesced => R.RequestEnabled(s, R.CommitGrant(replica, after))
      case NoReload => after == s.Database()
  {
    hide Grants, UserCommits, GroupCommits, AccessCommits, RoleCommits, PolicyRows, AsDatabase, Consistent, AccessAdds, ServicesExist, RolesExist;
    match reload
    case Synchronous =>
    case Coalesced =>
      var viewer :| UserCommits(t, x.user, t', viewer);
      CoalescedReloadIsForAGrant(s, replica, t, x.user, t', viewer, view, h);
    case NoReload =>
      QuietTransactionKeepsRoles(t, x, t');
      StoredRolesAreRead(t, view);
      NewRolesReadAlike(t, t', view, h);
      SameHierarchy(t, view, h);
      SameHierarchy(t', view, h);
  }
}
