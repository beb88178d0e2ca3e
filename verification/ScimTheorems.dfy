/**
 * What holds over every run of the transactions: SCIM-managed access follows
 * the directory, withdrawn users stay without access, humans' grants survive,
 * and the audit trail of every SCIM user alternates.
 */
module ScimTheorems {
  import opened Common
  import opened ScimTables
  import opened ScimReconcile
  import opened ReconcileTheorems
  import opened ScimOperations
  import opened AccessOperations
  import opened RoleOperations

  datatype Transaction = OfUser(user: UserOp) | OfGroup(group: GroupOp) | OfAccess(access: AccessOp) | OfRole(role: RoleOp)

  ghost predicate Commits(t: Tables, x: Transaction, t': Tables) {
    match x
    case OfUser(op) => exists viewer :: UserCommits(t, op, t', viewer)
    case OfGroup(op) => exists viewer :: GroupCommits(t, op, t', viewer)
    case OfAccess(op) => AccessCommits(t, op, t')
    case OfRole(op) => RoleCommits(t, op, t')
  }

  ghost predicate Runs(t: Tables, xs: seq<Transaction>, t': Tables)
    decreases |xs|
  {
    if xs == [] then t' == t else exists mid :: Commits(t, xs[0], mid) && Runs(mid, xs[1..], t')
  }

  /** The run that passes through these states, one transaction after the other. */
  ghost predicate Passes(states: seq<Tables>, xs: seq<Transaction>) {
    |states| == |xs| + 1 && forall i :: 0 <= i < |xs| ==> Commits(states[i], xs[i], states[i + 1])
  }

  lemma CommitConsistent(t: Tables, x: Transaction, t': Tables)
    requires Consistent(t) && Commits(t, x, t')
    ensures Consistent(t')
  {
    hide Consistent;
    match x
    case OfUser(op) =>
    case OfGroup(op) =>
    case OfAccess(op) => AccessWriteConsistent(t, op);
    case OfRole(op) => RoleWriteConsistent(t, op);
  }

  lemma GroupTransactionsSayNothing(t: Tables, op: GroupOp, t': Tables, viewer: Id)
    requires GroupCommits(t, op, t', viewer)
    ensures t'.rows == t.rows && t'.outbox == t.outbox
  {
    hide Consistent, Reconciled, GroupOpAllowed, GroupReconciles, RolesListedOrSeeded;
  }

  // ------------------------------------------------------------- the maintained view

  /** Managed memberships belong to active rows only. */
  predicate InactiveOwnNothing(t: Tables) {
    forall g :: g in Grants(t) && g.owner.Scim? ==> Active(t.rows, g.owner.row)
  }

  /** Every active SCIM user has what the directory calls for; the others own nothing. */
  ghost predicate ViewHolds(t: Tables) {
    InactiveOwnNothing(t) && forall id :: Active(t.rows, id) ==> InView(t, id)
  }

  /** What keeps a user in view: nothing of theirs is taken, nothing managed is added. */
  ghost predicate NothingLost(t: Tables, t': Tables, id: Id) {
    && id in t.rows && id in t'.rows && t'.rows[id].org == t.rows[id].org && t'.rows[id].user == t.rows[id].user
    && MappedRoles(t'.groups, t'.mappings, id) == MappedRoles(t.groups, t.mappings, id)
    && (forall r :: r in t.roles ==> r in t'.roles && t'.roles[r] == t.roles[r])
    && (forall g :: g in Grants(t) && Belongs(g, t.rows[id].org, t.rows[id].user) ==> g in Grants(t'))
    && (forall g :: g in Grants(t') && g.owner == Scim(id) ==> g in Grants(t))
  }

  lemma StaysInView(t: Tables, t': Tables, id: Id)
    requires InView(t, id) && NothingLost(t, t', id)
    ensures InView(t', id)
  {
    hide Grants, MappedRoles;
    var row := t.rows[id];
    forall role | role in MappedRoles(t.groups, t.mappings, id) ensures Held(Grants(t'), RoleMembership(row, role)) {
      var g :| g in Grants(t) && g.membership == RoleMembership(row, role);
      assert Belongs(g, row.org, row.user);
    }
    var g :| g in Grants(t) && Belongs(g, row.org, row.user) && g.membership.subject.RoleSubject?;
    assert g in Grants(t');
  }

  lemma ReconcileLosesNothing(w: Tables, t': Tables, org: string, ids: set<Id>, viewer: Id, id: Id)
    requires Consistent(w) && LiveIds(w.rows, ids) && Live(w.rows, id) && id !in ids && ReconciledTo(w, t', org, ids, viewer)
    ensures NothingLost(w, t', id)
  {
    hide Consistent, Grants, Reconciled, Target;
    ConsistentUnique(w);
    GrantsAreManagedFor(w);
    OtherRowsUntouched(Grants(w), w.rows, Targets(w, ids, viewer), id);
    GrantsAreManagedFor(t');
  }

  /** Reconciling keeps a user in view whom the write left in view, and brings in those it was for. */
  lemma ReconcileKeepsUser(w: Tables, t': Tables, org: string, ids: set<Id>, viewer: Id, id: Id)
    requires Consistent(w) && ReconciledTo(w, t', org, ids, viewer) && Active(w.rows, id)
    requires forall k :: k in ids ==> Active(w.rows, k) && w.rows[k].org == org
    requires id !in ids ==> InView(w, id)
    ensures InView(t', id)
  {
    hide Consistent, Grants, MappedRoles, InView;
    if id in ids {
      ReconciledIsInView(w, t', org, ids, viewer, id);
    } else {
      ReconcileLosesNothing(w, t', org, ids, viewer, id);
      StaysInView(w, t', id);
    }
  }

  lemma ReconcileOwnsNothingElse(w: Tables, t': Tables, org: string, ids: set<Id>, viewer: Id)
    requires InactiveOwnNothing(w) && ReconciledTo(w, t', org, ids, viewer)
    requires forall k :: k in ids ==> Active(w.rows, k)
    ensures InactiveOwnNothing(t')
  {
    hide Consistent, Grants, Target;
  }

  // ---------------------------------------------------- every transaction keeps the view

  /** A group or mapping change does not concern the mapped roles of anyone else. */
  lemma UnconcernedRoles(t: Tables, op: GroupOp, id: Id)
    requires GroupsWellFormed(t.groups, t.rows) && GroupOpAllowed(t, op) && id !in Concerned(t, op) && id < t.nextId
    requires forall g :: g in t.groups ==> g < t.nextId
    ensures var w := GroupWrite(t, op); MappedRoles(w.groups, w.mappings, id) == MappedRoles(t.groups, t.mappings, id)
  {
    var w := GroupWrite(t, op);
    forall role ensures role in MappedRoles(w.groups, w.mappings, id) <==> role in MappedRoles(t.groups, t.mappings, id) {
      if role in MappedRoles(t.groups, t.mappings, id) {
        var g :| g in t.groups && MappedThrough(t.groups[g], t.mappings, id) && t.mappings[(t.groups[g].org, Lower(t.groups[g].name))] == role;
        assert g in w.groups && w.groups[g] == t.groups[g];
        assert MappedThrough(w.groups[g], w.mappings, id);
      }
      if role in MappedRoles(w.groups, w.mappings, id) {
        var g :| g in w.groups && MappedThrough(w.groups[g], w.mappings, id) && w.mappings[(w.groups[g].org, Lower(w.groups[g].name))] == role;
        assert g in t.groups && w.groups[g] == t.groups[g];
        assert MappedThrough(t.groups[g], t.mappings, id);
      }
    }
  }

  lemma ConcernedAreOfOrg(t: Tables, op: GroupOp, id: Id)
    requires GroupsWellFormed(t.groups, t.rows) && GroupOpAllowed(t, op) && id in Concerned(t, op)
    ensures Live(t.rows, id) && t.rows[id].org == GroupOpOrg(t, op)
  {
  }

  lemma ConsistentGroups(t: Tables)
    requires Consistent(t)
    ensures GroupsWellFormed(t.groups, t.rows) && IdsBelow(t)
  {
  }

  /** Only SCIM user transactions write SCIM records. */
  lemma RowsStay(t: Tables, x: Transaction, t': Tables)
    requires Consistent(t) && !x.OfUser? && Commits(t, x, t')
    ensures t'.rows == t.rows
  {
    hide Consistent, GroupCommits, AccessWrite, RolesAfter, MappingsAfter, NextIdAfter, RoleOpAllowed;
    match x
    case OfGroup(op) =>
      var viewer :| GroupCommits(t, op, t', viewer);
      GroupTransactionsSayNothing(t, op, t', viewer);
    case OfAccess(op) =>
      ConsistentGroups(t);
      AccessWriteKeepsDirectory(t, op);
    case OfRole(_) =>
  }

  /** One user's part of the view. */
  ghost predicate UserInView(t: Tables, id: Id) {
    Active(t.rows, id) ==> InView(t, id)
  }

  lemma GroupTransactionKeepsUser(t: Tables, op: GroupOp, t': Tables, viewer: Id, id: Id)
    requires Consistent(t) && UserInView(t, id) && GroupCommits(t, op, t', viewer)
    ensures UserInView(t', id)
  {
    hide Consistent, Grants, MappedRoles, InView, Reconciled, GroupsWellFormed, Concerned;
    ConsistentGroups(t);
    var w := GroupWrite(t, op);
    GroupWriteConsistent(t, op);
    if Active(w.rows, id) {
      if id !in GroupReconciles(t, op) {
        if id in Concerned(t, op) {
          ConcernedAreOfOrg(t, op, id);
        } else {
          UnconcernedRoles(t, op, id);
          StaysInView(t, w, id);
        }
      }
      ReconcileKeepsUser(w, t', GroupOpOrg(t, op), GroupReconciles(t, op), viewer, id);
    }
  }

  lemma GroupTransactionKeepsView(t: Tables, op: GroupOp, t': Tables, viewer: Id)
    requires Consistent(t) && ViewHolds(t) && GroupCommits(t, op, t', viewer)
    ensures ViewHolds(t')
  {
    hide Consistent, Grants, MappedRoles, InView, Reconciled, GroupsWellFormed, Concerned;
    GroupWriteConsistent(t, op);
    ReconcileOwnsNothingElse(GroupWrite(t, op), t', GroupOpOrg(t, op), GroupReconciles(t, op), viewer);
    forall id | Active(t'.rows, id) ensures InView(t', id) {
      GroupTransactionKeepsUser(t, op, t', viewer, id);
    }
  }

  /** A SCIM user write leaves every other user's roles and groups alone. */
  lemma UserWriteElsewhere(t: Tables, op: UserOp, id: Id)
    requires Consistent(t) && UserOpAllowed(t, op) && id in t.rows
    requires op.Delete? ==> id != op.id
    ensures var w := UserWrite(t, op);
      && id in w.rows && w.roles == t.roles
      && MappedRoles(w.groups, w.mappings, id) == MappedRoles(t.groups, t.mappings, id)
      && w.rows[id].org == t.rows[id].org && w.rows[id].user == t.rows[id].user
  {
    hide Consistent, UserWrite, MappedRoles, ResolvesTo, NameFree, WithoutMember;
    UserWriteTables(t, op);
    RowIdIsFresh(t, op, id);
    if op.Delete? {
      WithoutMemberRoles(t.groups, t.mappings, op.id, id);
    }
  }

  lemma WithoutMemberRoles(groups: map<Id, Group>, mappings: map<(string, string), Id>, gone: Id, id: Id)
    requires id != gone
    ensures MappedRoles(WithoutMember(groups, gone), mappings, id) == MappedRoles(groups, mappings, id)
  {
    var w := WithoutMember(groups, gone);
    forall role ensures role in MappedRoles(w, mappings, id) <==> role in MappedRoles(groups, mappings, id) {
      if role in MappedRoles(groups, mappings, id) {
        var g :| g in groups && MappedThrough(groups[g], mappings, id) && mappings[(groups[g].org, Lower(groups[g].name))] == role;
        assert g in w && MappedThrough(w[g], mappings, id);
      }
      if role in MappedRoles(w, mappings, id) {
        var g :| g in w && MappedThrough(w[g], mappings, id) && mappings[(w[g].org, Lower(w[g].name))] == role;
        assert g in groups && MappedThrough(groups[g], mappings, id);
      }
    }
  }

  /** Which row is active changes for the written row only. */
  lemma ActiveAfterUserWrite(t: Tables, op: UserOp, id: Id)
    requires Consistent(t) && UserOpAllowed(t, op)
    ensures var w := UserWrite(t, op);
      Active(w.rows, id) <==>
        match op
        case Provision(input, user) => if id == NewRowId(t, input, user) then input.active else Active(t.rows, id)
        case Update(k, _, updated, _, _) => if id == k then updated.active else Active(t.rows, id)
        case Delete(k, _, _) => id != k && Active(t.rows, id)
  {
    hide Consistent, UserWrite, ResolvesTo, NameFree;
    UserWriteTables(t, op);
  }

  /** Users other than the written one, and the written one if it was and stays active, lose nothing. */
  lemma UserWriteLosesNothing(t: Tables, op: UserOp, id: Id)
    requires Consistent(t) && UserOpAllowed(t, op) && Active(t.rows, id) && Active(UserWrite(t, op).rows, id)
    ensures NothingLost(t, UserWrite(t, op), id)
  {
    hide Consistent, Grants, MappedRoles, UserWrite, UserOpAllowed;
    UserWriteConsistent(t, op);
    ActiveAfterUserWrite(t, op, id);
    UserWriteElsewhere(t, op, id);
    ConsistentUnique(t);
    if Deactivates(op) || op.Delete? {
      OpRowIsLive(t, op);
      OneLiveRow(t.rows, op.id, id);
    }
  }

  lemma OpRowIsLive(t: Tables, op: UserOp)
    requires UserOpAllowed(t, op) && !op.Provision?
    ensures Live(t.rows, op.id) && t.rows[op.id] == op.existing
  {
  }

  lemma UserTransactionKeepsUser(t: Tables, op: UserOp, t': Tables, viewer: Id, id: Id)
    requires Consistent(t) && UserInView(t, id) && UserCommits(t, op, t', viewer)
    ensures UserInView(t', id)
  {
    hide Consistent, Grants, MappedRoles, InView, Reconciled, UserWrite, UserOpAllowed;
    var w := UserWrite(t, op);
    UserWriteConsistent(t, op);
    ReconciledAreActive(t, op);
    if Active(w.rows, id) {
      if id !in UserReconciles(t, op) {
        ActiveAfterUserWrite(t, op, id);
        if !op.Provision? { OpRowIsLive(t, op); }
        UserWriteLosesNothing(t, op, id);
        StaysInView(t, w, id);
      }
      ReconcileKeepsUser(w, t', UserOpOrg(op), UserReconciles(t, op), viewer, id);
    }
  }

  lemma ReconciledAreActive(t: Tables, op: UserOp)
    requires Consistent(t) && UserOpAllowed(t, op)
    ensures var w := UserWrite(t, op);
      forall id :: id in UserReconciles(t, op) ==> Active(w.rows, id) && w.rows[id].org == UserOpOrg(op)
  {
    hide Consistent, UserWrite, UserOpAllowed;
    var w := UserWrite(t, op);
    forall id | id in UserReconciles(t, op) ensures Active(w.rows, id) && w.rows[id].org == UserOpOrg(op) {
      ActiveAfterUserWrite(t, op, id);
      ReconciledRowOrg(t, op, id);
    }
  }

  lemma UserTransactionKeepsView(t: Tables, op: UserOp, t': Tables, viewer: Id)
    requires Consistent(t) && ViewHolds(t) && UserCommits(t, op, t', viewer)
    ensures ViewHolds(t')
  {
    hide Consistent, Grants, MappedRoles, InView, Reconciled, UserWrite, UserOpAllowed;
    InactiveOwnNothingAfter(t, op);
    ReconciledAreActive(t, op);
    ReconcileOwnsNothingElse(UserWrite(t, op), t', UserOpOrg(op), UserReconciles(t, op), viewer);
    forall id | Active(t'.rows, id) ensures InView(t', id) {
      UserTransactionKeepsUser(t, op, t', viewer, id);
    }
  }

  lemma ReconciledRowOrg(t: Tables, op: UserOp, id: Id)
    requires Consistent(t) && UserOpAllowed(t, op) && id in UserReconciles(t, op)
    ensures id in UserWrite(t, op).rows && UserWrite(t, op).rows[id].org == UserOpOrg(op)
  {
    hide Consistent, UserWrite, ResolvesTo, NameFree;
    UserWriteTables(t, op);
  }

  /** Managed grants of a row that stops being active are among those removed. */
  lemma InactiveOwnNothingAfter(t: Tables, op: UserOp)
    requires Consistent(t) && UserOpAllowed(t, op) && InactiveOwnNothing(t)
    ensures InactiveOwnNothing(UserWrite(t, op))
  {
    hide Consistent, Grants, UserWrite, UserOpAllowed;
    UserWriteConsistent(t, op);
    GrantsAreManagedFor(t);
    if !op.Provision? { OpRowIsLive(t, op); }
    forall g | g in Grants(UserWrite(t, op)) && g.owner.Scim? ensures Active(UserWrite(t, op).rows, g.owner.row) {
      ActiveAfterUserWrite(t, op, g.owner.row);
      RowIdIsFresh(t, op, g.owner.row);
    }
  }

  lemma RowIdIsFresh(t: Tables, op: UserOp, id: Id)
    requires Consistent(t) && id in t.rows
    ensures op.Provision? ==> id != NewRowId(t, op.input, op.user)
  {
  }

  /** A human takes memberships away; the view of the user concerned is theirs to break. */
  predicate RemovedByHuman(x: Transaction) {
    x.OfAccess? && (x.access.ReplaceByHuman? || x.access.RemoveByHuman?)
  }

  lemma AccessTransactionKeepsUser(t: Tables, op: AccessOp, t': Tables, id: Id)
    requires Consistent(t) && UserInView(t, id) && AccessCommits(t, op, t') && !RemovedByHuman(OfAccess(op))
    ensures UserInView(t', id)
  {
    hide Consistent, Grants, MappedRoles, InView, AccessWrite, AccessOpAllowed;
    AccessWriteConsistent(t, op);
    ConsistentGroups(t);
    AccessWriteKeepsDirectory(t, op);
    if Active(t'.rows, id) {
      StaysInView(t, t', id);
    }
  }

  /** Transactions outside SCIM give no row a managed grant. */
  lemma AccessTransactionOwnsNothing(t: Tables, op: AccessOp, t': Tables)
    requires Consistent(t) && InactiveOwnNothing(t) && AccessCommits(t, op, t')
    ensures InactiveOwnNothing(t')
  {
    hide Consistent, Grants, AccessWrite, AccessOpAllowed;
    AccessWriteConsistent(t, op);
    ConsistentGroups(t);
    AccessWriteKeepsDirectory(t, op);
  }

  lemma AccessTransactionKeepsView(t: Tables, op: AccessOp, t': Tables)
    requires Consistent(t) && ViewHolds(t) && AccessCommits(t, op, t') && !RemovedByHuman(OfAccess(op))
    ensures ViewHolds(t')
  {
    hide Consistent, Grants, InView, AccessWrite, AccessOpAllowed;
    AccessTransactionOwnsNothing(t, op, t');
    forall id | Active(t'.rows, id) ensures InView(t', id) {
      AccessTransactionKeepsUser(t, op, t', id);
    }
  }

  /** Creating, renaming and deleting roles takes nothing from anyone. */
  lemma RoleTransactionKeepsView(t: Tables, op: RoleOp, t': Tables)
    requires Consistent(t) && ViewHolds(t) && RoleCommits(t, op, t')
    ensures ViewHolds(t')
  {
    hide Consistent, Grants, InView, RoleOpAllowed, RolesAfter, MappingsAfter, NextIdAfter;
    RoleWriteConsistent(t, op);
    forall id | Active(t'.rows, id) ensures InView(t', id) {
      RoleTransactionKeepsUser(t, op, t', id);
    }
  }

  /** Every transaction but a human removal keeps SCIM-managed access in line with the directory. */
  lemma TransactionKeepsView(t: Tables, x: Transaction, t': Tables)
    requires Consistent(t) && ViewHolds(t) && Commits(t, x, t') && !RemovedByHuman(x)
    ensures Consistent(t') && ViewHolds(t')
  {
    hide Consistent, ViewHolds, UserCommits, GroupCommits, AccessCommits, RoleCommits;
    CommitConsistent(t, x, t');
    match x
    case OfUser(op) =>
      var viewer :| UserCommits(t, op, t', viewer);
      UserTransactionKeepsView(t, op, t', viewer);
    case OfGroup(op) =>
      var viewer :| GroupCommits(t, op, t', viewer);
      GroupTransactionKeepsView(t, op, t', viewer);
    case OfAccess(op) => AccessTransactionKeepsView(t, op, t');
    case OfRole(op) => RoleTransactionKeepsView(t, op, t');
  }

  lemma {:induction false} RunsKeepView(t: Tables, xs: seq<Transaction>, t': Tables)
    requires Consistent(t) && ViewHolds(t) && Runs(t, xs, t')
    requires forall x :: x in xs ==> !RemovedByHuman(x)
    ensures Consistent(t') && ViewHolds(t')
    decreases |xs|
  {
    hide Consistent, ViewHolds, Commits;
    if xs != [] {
      var mid :| Commits(t, xs[0], mid) && Runs(mid, xs[1..], t');
      TransactionKeepsView(t, xs[0], mid);
      RunsKeepView(mid, xs[1..], t');
    }
  }

  /** Exactly when a human's replacement of a SCIM user's memberships leaves them in view. */
  lemma ReplacementInView(t: Tables, org: string, user: Id, requests: seq<(Subject, string)>, t': Tables, id: Id)
    requires Consistent(t) && AccessCommits(t, ReplaceByHuman(org, user, requests), t')
    requires Active(t.rows, id) && IsRowOf(t.rows[id], org, user)
    ensures InView(t', id) <==>
      && (forall role :: role in MappedRoles(t.groups, t.mappings, id) ==> (RoleSubject(role), "") in requests)
      && (exists r :: r in requests && r.0.RoleSubject?)
  {
    hide Consistent, Grants, MappedRoles, AccessWrite;
    var op, row := ReplaceByHuman(org, user, requests), t.rows[id];
    AccessWriteConsistent(t, op);
    ConsistentGroups(t);
    AccessWriteKeepsDirectory(t, op);
    GrantsAreManagedFor(t');
    forall role ensures Held(Grants(t'), RoleMembership(row, role)) <==> (RoleSubject(role), "") in requests {
      HeldAfterReplacement(t, op, role);
    }
    assert HoldsARole(Grants(t'), row) <==> exists r :: r in requests && r.0.RoleSubject? by {
      if r :| r in requests && r.0.RoleSubject? {
        assert Belongs(Grant(RequestedMembership(org, user, r), Human), org, user);
        assert Grant(RequestedMembership(org, user, r), Human) in Grants(t');
      }
    }
  }

  lemma HeldAfterReplacement(t: Tables, op: AccessOp, role: Id)
    requires op.ReplaceByHuman?
    ensures Held(Grants(t) - AccessDrops(t, op) + AccessAdds(t, op), Membership(op.user, op.org, RoleSubject(role), ""))
            <==> (RoleSubject(role), "") in op.requests
  {
    hide Grants;
    var grants := Grants(t) - AccessDrops(t, op) + AccessAdds(t, op);
    var m := Membership(op.user, op.org, RoleSubject(role), "");
    if Held(grants, m) {
      var g :| g in grants && g.membership == m;
      assert Belongs(g, op.org, op.user);
      var r :| r in op.requests && g == Grant(RequestedMembership(op.org, op.user, r), Human);
    }
    if (RoleSubject(role), "") in op.requests {
      assert Grant(RequestedMembership(op.org, op.user, (RoleSubject(role), "")), Human) in grants;
    }
  }

  /** Whose memberships a human's removal concerns. */
  predicate RemovalConcerns(t: Tables, op: AccessOp, row: ScimRow) {
    match op
    case ReplaceByHuman(org, user, _) => IsRowOf(row, org, user)
    case RemoveByHuman(m) => m in t.memberships && IsRowOf(row, t.memberships[m].org, t.memberships[m].user)
    case _ => false
  }

  /** Nobody else's view is affected by a human's removal. */
  lemma RemovalConcernsOneUser(t: Tables, op: AccessOp, t': Tables, id: Id)
    requires Consistent(t) && InView(t, id) && AccessCommits(t, op, t')
    requires Active(t.rows, id) && !RemovalConcerns(t, op, t.rows[id])
    ensures InView(t', id)
  {
    hide Consistent, Grants, MappedRoles, InView, AccessWrite, AccessOpAllowed;
    AccessWriteConsistent(t, op);
    ConsistentGroups(t);
    AccessWriteKeepsDirectory(t, op);
    forall g | g in Grants(t) && Belongs(g, t.rows[id].org, t.rows[id].user) ensures g in Grants(t') {
      DropsBelong(t, op, g, t.rows[id]);
    }
    StaysInView(t, t', id);
  }

  lemma DropsBelong(t: Tables, op: AccessOp, g: Grant, row: ScimRow)
    requires Belongs(g, row.org, row.user) && !RemovalConcerns(t, op, row)
    ensures g !in AccessDrops(t, op)
  {
  }

  /** Exactly when a human's deletion of one membership leaves its SCIM user in view. */
  lemma RemovalInView(t: Tables, membership: Id, t': Tables, id: Id)
    requires Consistent(t) && InView(t, id) && AccessCommits(t, RemoveByHuman(membership), t')
    requires Active(t.rows, id) && membership in t.memberships
    requires IsRowOf(t.rows[id], t.memberships[membership].org, t.memberships[membership].user)
    ensures var m := t.memberships[membership];
      InView(t', id) <==>
        && (forall role :: role in MappedRoles(t.groups, t.mappings, id) ==> m != RoleMembership(t.rows[id], role))
        && HasRoleMembership(t.memberships - {membership}, m.org, m.user)
  {
    hide Consistent, Grants, MappedRoles, AccessOpAllowed, Held, HoldsARole, HasRoleMembership;
    var row, m, mapped := t.rows[id], t.memberships[membership], MappedRoles(t.groups, t.mappings, id);
    assert t' == DeleteMemberships(t, {membership}) && InView(t, id);
    ConsistentGroups(t);
    ConsistentUnique(t);
    forall role | role in mapped ensures Held(Grants(t'), RoleMembership(row, role)) <==> m != RoleMembership(row, role) {
      HeldAfterRemoval(t, membership, RoleMembership(row, role));
    }
    RoleHeldIffStored(t', row);
    GrantsOnlyShrink(t, membership);
    forall g | g in Grants(t') && g.owner == Scim(id) ensures OwnedRole(t', id, g) {
      assert OwnedRole(t, id, g);
    }
    assert t'.rows[id] == row && MappedRoles(t'.groups, t'.mappings, id) == mapped;
  }

  lemma HeldAfterRemoval(t: Tables, membership: Id, m: Membership)
    requires UniqueMemberships(t.memberships) && membership in t.memberships && Held(Grants(t), m)
    ensures Held(Grants(DeleteMemberships(t, {membership})), m) <==> m != t.memberships[membership]
  {
    hide Grants, Held;
    HeldIsStored(t, m);
    HeldIsStored(DeleteMemberships(t, {membership}), m);
    var left := t.memberships - {membership};
    var k :| k in t.memberships && t.memberships[k] == m;
    assert k != membership ==> k in left && left[k] == m;
  }

  lemma RoleHeldIffStored(t: Tables, row: ScimRow)
    ensures HoldsARole(Grants(t), row) <==> HasRoleMembership(t.memberships, row.org, row.user)
  {
    if HasRoleMembership(t.memberships, row.org, row.user) {
      var m :| m in t.memberships && t.memberships[m].org == row.org && t.memberships[m].user == row.user && t.memberships[m].subject.RoleSubject?;
      assert GrantOf(t, m) in Grants(t) && Belongs(GrantOf(t, m), row.org, row.user);
    }
  }

  lemma GrantsOnlyShrink(t: Tables, membership: Id)
    requires UniqueMemberships(t.memberships)
    ensures Grants(DeleteMemberships(t, {membership})) <= Grants(t)
  {
    DeleteMembershipsGrants(t, {membership});
  }

  // ---------------------------------------------------------- one user over whole runs

  /** The removal is of someone else's memberships, or leaves this user what the directory calls for. */
  predicate Spares(t: Tables, op: AccessOp, id: Id)
    requires id in t.rows
  {
    RemovalConcerns(t, op, t.rows[id]) ==>
      var mapped := MappedRoles(t.groups, t.mappings, id);
      match op
      case ReplaceByHuman(_, _, requests) =>
        (forall role :: role in mapped ==> (RoleSubject(role), "") in requests) && (exists r :: r in requests && r.0.RoleSubject?)
      case RemoveByHuman(m) =>
        && (forall role :: role in mapped ==> t.memberships[m] != RoleMembership(t.rows[id], role))
        && HasRoleMembership(t.memberships - {m}, t.memberships[m].org, t.memberships[m].user)
      case _ => true
  }

  /** A human's removal leaves a user in view exactly if it spares them. */
  lemma RemovalSparesIff(t: Tables, op: AccessOp, t': Tables, id: Id)
    requires Consistent(t) && InView(t, id) && Active(t.rows, id) && AccessCommits(t, op, t') && RemovedByHuman(OfAccess(op))
    ensures InView(t', id) <==> Spares(t, op, id)
  {
    hide Consistent, InView, MappedRoles, AccessWrite, AccessOpAllowed, HasRoleMembership, IsRowOf;
    if !RemovalConcerns(t, op, t.rows[id]) {
      RemovalConcernsOneUser(t, op, t', id);
    } else {
      match op
      case ReplaceByHuman(org, user, requests) => ReplacementInView(t, org, user, requests, t', id);
      case RemoveByHuman(m) => RemovalInView(t, m, t', id);
    }
  }

  lemma RemovalKeepsActive(t: Tables, op: AccessOp, t': Tables)
    requires Consistent(t) && AccessCommits(t, op, t')
    ensures t'.rows == t.rows
  {
    hide Consistent, AccessWrite, AccessOpAllowed;
    ConsistentGroups(t);
    AccessWriteKeepsDirectory(t, op);
  }

  /** A human's removal never takes this user, while active, what the directory calls for. */
  ghost predicate NeverRobbed(states: seq<Tables>, xs: seq<Transaction>, id: Id)
    requires |states| == |xs| + 1
  {
    forall i :: 0 <= i < |xs| && RemovedByHuman(xs[i]) && Active(states[i].rows, id) ==> Spares(states[i], xs[i].access, id)
  }

  lemma StepKeepsUser(t: Tables, x: Transaction, t': Tables, id: Id)
    requires Consistent(t) && UserInView(t, id) && Commits(t, x, t')
    requires RemovedByHuman(x) && Active(t.rows, id) ==> Spares(t, x.access, id)
    ensures Consistent(t') && UserInView(t', id)
  {
    hide Consistent, InView, UserCommits, GroupCommits, AccessCommits, Spares;
    CommitConsistent(t, x, t');
    match x
    case OfUser(op) =>
      var viewer :| UserCommits(t, op, t', viewer);
      UserTransactionKeepsUser(t, op, t', viewer, id);
    case OfGroup(op) =>
      var viewer :| GroupCommits(t, op, t', viewer);
      GroupTransactionKeepsUser(t, op, t', viewer, id);
    case OfAccess(op) =>
      if !RemovedByHuman(x) {
        AccessTransactionKeepsUser(t, op, t', id);
      } else {
        RemovalKeepsActive(t, op, t');
        if Active(t.rows, id) {
          RemovalSparesIff(t, op, t', id);
        }
      }
    case OfRole(op) =>
      if Active(t.rows, id) {
        RoleTransactionKeepsUser(t, op, t', id);
      }
  }

  /** A user stays in view over every run whose removals by humans concern others or spare them. */
  lemma {:induction false} RunsKeepUserInView(states: seq<Tables>, xs: seq<Transaction>, id: Id, n: nat)
    requires Passes(states, xs) && Consistent(states[0]) && UserInView(states[0], id) && NeverRobbed(states, xs, id) && n <= |xs|
    ensures Consistent(states[n]) && UserInView(states[n], id)
    decreases n
  {
    hide Consistent, UserInView, Commits, Spares, Active;
    if n > 0 {
      RunsKeepUserInView(states, xs, id, n - 1);
      assert Commits(states[n - 1], xs[n - 1], states[n]);
      StepKeepsUser(states[n - 1], xs[n - 1], states[n], id);
    }
  }

  // -------------------------------------------------- memberships refer to stored roles

  predicate GrantsExist(grants: set<Grant>, roles: map<Id, Role>) {
    forall g :: g in grants ==> RoleStored(roles, g.membership)
  }

  lemma RolesExistIff(t: Tables)
    ensures RolesExist(t) <==> GrantsExist(Grants(t), t.roles)
  {
    if GrantsExist(Grants(t), t.roles) {
      forall m | m in t.memberships ensures RoleStored(t.roles, t.memberships[m]) {
        assert GrantOf(t, m) in Grants(t);
      }
    }
  }

  lemma ReconcileKeepsRoles(w: Tables, t': Tables, org: string, ids: set<Id>, viewer: Id)
    requires MappingsWellFormed(w.mappings, w.roles) && GroupsWellFormed(w.groups, w.rows)
    requires GrantsExist(Grants(w), w.roles) && ReconciledTo(w, t', org, ids, viewer)
    requires forall id :: id in ids ==> Active(w.rows, id) && w.rows[id].org == org
    ensures GrantsExist(Grants(t'), t'.roles)
  {
    hide Consistent, Grants, NeedsViewer, GroupsWellFormed, MappingsWellFormed, MappedRoles;
    forall g | g in Grants(t') ensures RoleStored(t'.roles, g.membership) {
      if g in Grants(w) {
        assert RoleStored(w.roles, g.membership);
      } else {
        var id, role := g.owner.row, g.membership.subject.role;
        assert id in ids && role in Target(w, id, viewer) && g.membership == RoleMembership(w.rows[id], role);
        if role in MappedRoles(w.groups, w.mappings, id) {
          MappedRoleStored(w, id, role);
        }
      }
    }
  }

  lemma MappedRoleStored(t: Tables, id: Id, role: Id)
    requires MappingsWellFormed(t.mappings, t.roles) && GroupsWellFormed(t.groups, t.rows) && role in MappedRoles(t.groups, t.mappings, id)
    ensures id in t.rows && role in t.roles && t.roles[role].org == t.rows[id].org
  {
    hide SameName;
  }

  lemma ConsistentMappings(t: Tables)
    requires Consistent(t)
    ensures MappingsWellFormed(t.mappings, t.roles) && GroupsWellFormed(t.groups, t.rows)
  {
  }

  lemma UserKeepsRoles(t: Tables, op: UserOp, t': Tables, viewer: Id)
    requires Consistent(t) && RolesExist(t) && UserCommits(t, op, t', viewer)
    ensures RolesExist(t')
  {
    hide Consistent, Grants, UserWrite, UserOpAllowed, RolesExist, Reconciled, MappingsWellFormed, GroupsWellFormed;
    var w := UserWrite(t, op);
    ReconciledAreActive(t, op);
    UserWriteConsistent(t, op);
    UserWriteTables(t, op);
    ConsistentMappings(w);
    RolesExistIff(t);
    ReconcileKeepsRoles(w, t', UserOpOrg(op), UserReconciles(t, op), viewer);
    RolesExistIff(t');
  }

  lemma GroupKeepsRoles(t: Tables, op: GroupOp, t': Tables, viewer: Id)
    requires Consistent(t) && RolesExist(t) && GroupCommits(t, op, t', viewer)
    ensures RolesExist(t')
  {
    hide Consistent, Grants, GroupOpAllowed, RolesExist, Reconciled, MappingsWellFormed, GroupsWellFormed;
    var w := GroupWrite(t, op);
    GroupWriteConsistent(t, op);
    ConsistentMappings(w);
    RolesExistIff(t);
    assert w.roles == t.roles;
    ReconcileKeepsRoles(w, t', GroupOpOrg(t, op), GroupReconciles(t, op), viewer);
    RolesExistIff(t');
  }

  lemma AccessKeepsRoles(t: Tables, op: AccessOp, t': Tables)
    requires Consistent(t) && RolesExist(t) && AccessCommits(t, op, t')
    ensures RolesExist(t')
  {
    hide Consistent, Grants, RolesExist, AccessWrite, LoginResolves, HasMembership, Invited, AccessDrops;
    AccessWriteConsistent(t, op);
    ConsistentGroups(t);
    AccessWriteKeepsDirectory(t, op);
    RolesExistIff(t);
    RolesExistIff(t');
    forall g | g in AccessAdds(t, op) ensures RoleStored(t'.roles, g.membership) {
      AddedRoleExists(t, op, g);
    }
  }

  lemma AddedRoleExists(t: Tables, op: AccessOp, g: Grant)
    requires AccessOpAllowed(t, op) && g in AccessAdds(t, op)
    ensures RoleStored(t.roles, g.membership) || RoleStored(AccessWrite(t, op).roles, g.membership)
  {
    hide LoginResolves, HasMembership, HasMemberships, Invited, HasRoleMembership, HasSubject, InsertAll, HasRoles, WithBuiltins;
  }

  lemma RoleKeepsRoles(t: Tables, op: RoleOp, t': Tables)
    requires Consistent(t) && RolesExist(t) && RoleCommits(t, op, t')
    ensures RolesExist(t')
  {
    hide Consistent, RoleExists, HasRoles;
    ConsistentGroups(t);
    if op.ListRoles? {
      BuiltinsAdded(t.roles, op.org, t.nextId);
    }
  }

  /** The foreign key of memberships holds along every run: in particular no role is deleted under a membership. */
  lemma {:induction false} RunsKeepRoles(states: seq<Tables>, xs: seq<Transaction>, n: nat)
    requires Passes(states, xs) && Consistent(states[0]) && RolesExist(states[0]) && n <= |xs|
    ensures Consistent(states[n]) && RolesExist(states[n])
    decreases n
  {
    hide Consistent, RolesExist, UserCommits, GroupCommits, AccessCommits, RoleCommits;
    if n > 0 {
      RunsKeepRoles(states, xs, n - 1);
      var t, x, t' := states[n - 1], xs[n - 1], states[n];
      assert Commits(t, x, t');
      CommitConsistent(t, x, t');
      match x
      case OfUser(op) =>
        var viewer :| UserCommits(t, op, t', viewer);
        UserKeepsRoles(t, op, t', viewer);
      case OfGroup(op) =>
        var viewer :| GroupCommits(t, op, t', viewer);
        GroupKeepsRoles(t, op, t', viewer);
      case OfAccess(op) => AccessKeepsRoles(t, op, t');
      case OfRole(op) => RoleKeepsRoles(t, op, t');
    }
  }
}
