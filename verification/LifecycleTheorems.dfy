/**
 * The life of a SCIM user over whole runs: a withdrawn user stays without
 * access, humans' grants end only by withdrawal or by a human, and the audit
 * events of each user alternate.
 */
module LifecycleTheorems {
  import opened Common
  import opened ScimTables
  import opened ScimReconcile
  import opened ReconcileTheorems
  import opened ScimOperations
  import opened AccessOperations
  import opened RoleOperations
  import opened ScimTheorems

  // ----------------------------------------------------------- withdrawal is final

  /** The IDP withdrew the user, and nothing is left of their access to the organization. */
  predicate NoAccess(t: Tables, org: string, user: Id) {
    Withdrawn(t.rows, org, user) && forall g :: g in Grants(t) ==> !Belongs(g, org, user)
  }

  predicate Withdraws(op: UserOp) {
    Deactivates(op) || op.Delete?
  }

  lemma AccessRemovedLocksOut(t: Tables, org: string, user: Id, userName: string)
    ensures var w := AccessRemoved(t, org, user, userName);
      && Uninvited(w, org, EmailOf(t, user), userName)
      && (WithoutMembership(Grants(w), user) ==> LockedOut(w, user))
  {
    hide AddressedTo, MembershipIdsOf;
    var w := AccessRemoved(t, org, user, userName);
    if HasMembershipAnywhere(w.memberships, user) {
      var m :| m in w.memberships && w.memberships[m].user == user;
      assert GrantOf(w, m) in Grants(w);
    }
  }

  /** Deactivating or deleting a user takes every membership, invitation and, at the last one, session. */
  lemma WithdrawalRemovesAccess(t: Tables, op: UserOp, t': Tables, viewer: Id)
    requires Consistent(t) && Withdraws(op) && UserCommits(t, op, t', viewer)
    ensures NoAccess(t', op.existing.org, op.existing.user)
    ensures Uninvited(t', op.existing.org, EmailOf(t, op.existing.user), op.existing.userName)
    ensures WithoutMembership(Grants(t'), op.existing.user) ==> LockedOut(t', op.existing.user)
  {
    hide Consistent, Grants, Stale, UserWrite, AddressedTo, UserOpAllowed, AccessRemoved;
    var e := op.existing;
    var w := UserWrite(t, op);
    UserWriteConsistent(t, op);
    OpRowIsLive(t, op);
    UserWriteTables(t, op);
    forall id | id in w.rows && Active(w.rows, id) ensures !IsRowOf(w.rows[id], e.org, e.user) {
      ConsistentUnique(t);
      ActiveAfterUserWrite(t, op, id);
      OneLiveRow(t.rows, op.id, id);
    }
    assert IsRowOf(w.rows[op.id], e.org, e.user) by { UserWriteKeepsOwner(t, op); }
    NothingReconciled(w, t', e.org, viewer);
    AccessRemovedLocksOut(t, e.org, e.user, e.userName);
    AccessRemovedGrants(t, e.org, e.user, e.userName);
    WithdrawalTables(t, op);
  }

  lemma UserWriteKeepsOwner(t: Tables, op: UserOp)
    requires UserOpAllowed(t, op) && !op.Provision?
    ensures op.id in RowsAfter(t, op) && IsRowOf(RowsAfter(t, op)[op.id], op.existing.org, op.existing.user)
  {
    hide NameFree;
  }

  lemma NothingReconciled(w: Tables, t': Tables, org: string, viewer: Id)
    requires ReconciledTo(w, t', org, {}, viewer)
    ensures Grants(t') == Grants(w)
  {
    hide Grants;
  }

  predicate SameAccessTables(t: Tables, t': Tables) {
    t'.invitations == t.invitations && t'.sessions == t.sessions && t'.devices == t.devices
  }

  lemma RowWrittenAccessTables(t: Tables, op: UserOp)
    requires op.Update?
    ensures SameAccessTables(t, RowWritten(t, op))
  {
    hide RowWritten;
    RowWrittenIs(t, op);
  }

  lemma WithdrawalTables(t: Tables, op: UserOp)
    requires Withdraws(op)
    ensures SameAccessTables(AccessRemoved(t, op.existing.org, op.existing.user, op.existing.userName), UserWrite(t, op))
  {
    hide AccessRemoved, WithoutMember, RowWritten;
    var e := op.existing;
    if op.Update? {
      RowWrittenAccessTables(WithEvent(AccessRemoved(t, e.org, e.user, e.userName), Deprovisioned(op.id, Deactivated)), op);
    }
  }

  /** A reconciliation gives grants to the users it reconciles only. */
  lemma ReconcileGrantsTo(w: Tables, t': Tables, org: string, ids: set<Id>, viewer: Id, g: Grant)
    requires ReconciledTo(w, t', org, ids, viewer) && g in Grants(t') && g !in Grants(w)
    ensures g.owner.Scim? && g.owner.row in ids && ManagedFor(g.membership, g.owner.row, w.rows)
  {
    hide Grants, Stale, Target;
  }

  lemma ReconcileActiveKeepsNoAccess(w: Tables, t': Tables, org': string, ids: set<Id>, viewer: Id, org: string, user: Id)
    requires ReconciledTo(w, t', org', ids, viewer) && NoAccess(w, org, user)
    requires forall id :: id in ids ==> Active(w.rows, id)
    ensures NoAccess(t', org, user)
  {
    hide Consistent, Grants, Reconciled, Withdrawn;
    forall g | g in Grants(t') ensures !Belongs(g, org, user) {
      if g !in Grants(w) {
        ReconcileGrantsTo(w, t', org', ids, viewer, g);
        assert !IsRowOf(w.rows[g.owner.row], org, user) by { NoActiveRow(w.rows, org, user, g.owner.row); }
      }
    }
  }

  lemma NoActiveRow(rows: map<Id, ScimRow>, org: string, user: Id, id: Id)
    requires Withdrawn(rows, org, user) && Active(rows, id)
    ensures !IsRowOf(rows[id], org, user)
  {
  }

  lemma UserTransactionKeepsNoAccess(t: Tables, op: UserOp, t': Tables, viewer: Id, org: string, user: Id)
    requires Consistent(t) && UserCommits(t, op, t', viewer)
    requires NoAccess(t, org, user) && !HasActiveRow(t'.rows, org, user)
    ensures NoAccess(t', org, user)
  {
    hide Consistent, Grants, Reconciled, UserWrite, UserOpAllowed, HasActiveRow;
    var w := UserWrite(t, op);
    UserWriteConsistent(t, op);
    assert Governed(w.rows, org, user) by {
      var id :| id in t.rows && IsRowOf(t.rows[id], org, user);
      RowsKeepOwner(t, op, id);
    }
    forall id | id in UserReconciles(t, op) ensures Active(w.rows, id) {
      ActiveAfterUserWrite(t, op, id);
    }
    ReconcileActiveKeepsNoAccess(w, t', UserOpOrg(op), UserReconciles(t, op), viewer, org, user);
  }

  lemma RowsKeepOwner(t: Tables, op: UserOp, id: Id)
    requires Consistent(t) && UserOpAllowed(t, op) && id in t.rows
    ensures var rows := UserWrite(t, op).rows; id in rows && IsRowOf(rows[id], t.rows[id].org, t.rows[id].user)
  {
    hide Consistent, UserWrite, UserOpAllowed;
    UserWriteTables(t, op);
    RowIdIsFresh(t, op, id);
    if !op.Provision? {
      OpRowIsLive(t, op);
      UserWriteKeepsOwner(t, op);
    }
  }

  lemma GroupTransactionKeepsNoAccess(t: Tables, op: GroupOp, t': Tables, viewer: Id, org: string, user: Id)
    requires Consistent(t) && GroupCommits(t, op, t', viewer) && NoAccess(t, org, user)
    ensures NoAccess(t', org, user)
  {
    hide Consistent, Grants, Reconciled, Concerned, GroupOpAllowed, Withdrawn;
    GroupWriteConsistent(t, op);
    ReconcileActiveKeepsNoAccess(GroupWrite(t, op), t', GroupOpOrg(t, op), GroupReconciles(t, op), viewer, org, user);
  }

  /** SSO logins, redemptions and replacements stop at the governance gate. */
  lemma GatesHold(t: Tables, op: AccessOp, g: Grant)
    requires Consistent(t) && AccessOpAllowed(t, op) && g in AccessAdds(t, op) && !op.GrantByHuman?
    ensures !NoAccess(t, g.membership.org, g.membership.user)
  {
    hide UniqueMemberships, UniqueLiveRows, ManagedShape, GroupsWellFormed, MappingsWellFormed, LoginRole, Distinct;
    if op.ReplaceByHuman? {
      var m :| m in t.memberships && t.memberships[m].org == op.org && t.memberships[m].user == op.user;
      assert GrantOf(t, m) in Grants(t) && Belongs(GrantOf(t, m), op.org, op.user);
    }
  }

  lemma AccessTransactionKeepsNoAccess(t: Tables, op: AccessOp, t': Tables, org: string, user: Id)
    requires Consistent(t) && AccessCommits(t, op, t') && NoAccess(t, org, user)
    requires op.GrantByHuman? ==> op.org != org || op.user != user
    ensures NoAccess(t', org, user)
  {
    hide Consistent, Grants, AccessWrite, AccessOpAllowed, Withdrawn;
    AccessWriteConsistent(t, op);
    ConsistentGroups(t);
    AccessWriteKeepsDirectory(t, op);
    forall g | g in Grants(t') ensures !Belongs(g, org, user) {
      if g in AccessAdds(t, op) && !op.GrantByHuman? {
        GatesHold(t, op, g);
      }
    }
  }

  /** The only transactions that let a withdrawn user back in. */
  predicate LetsIn(x: Transaction, t': Tables, org: string, user: Id) {
    HasActiveRow(t'.rows, org, user) || (x.OfAccess? && x.access.GrantByHuman? && x.access.org == org && x.access.user == user)
  }

  lemma RoleTransactionKeepsNoAccess(t: Tables, op: RoleOp, t': Tables, org: string, user: Id)
    requires Consistent(t) && RoleCommits(t, op, t') && NoAccess(t, org, user)
    ensures NoAccess(t', org, user)
  {
    hide Consistent, Grants, RoleOpAllowed, RolesAfter, MappingsAfter, NextIdAfter;
    RoleWriteConsistent(t, op);
  }

  lemma TransactionKeepsNoAccess(t: Tables, x: Transaction, t': Tables, org: string, user: Id)
    requires Consistent(t) && Commits(t, x, t') && NoAccess(t, org, user) && !LetsIn(x, t', org, user)
    ensures NoAccess(t', org, user)
  {
    hide Consistent, NoAccess, UserCommits, GroupCommits, AccessCommits, HasActiveRow;
    match x
    case OfUser(op) =>
      var viewer :| UserCommits(t, op, t', viewer);
      UserTransactionKeepsNoAccess(t, op, t', viewer, org, user);
    case OfGroup(op) =>
      var viewer :| GroupCommits(t, op, t', viewer);
      GroupTransactionKeepsNoAccess(t, op, t', viewer, org, user);
    case OfAccess(op) => AccessTransactionKeepsNoAccess(t, op, t', org, user);
    case OfRole(op) => RoleTransactionKeepsNoAccess(t, op, t', org, user);
  }

  /** A run in which the IDP neither reactivates nor provisions the user again, and no one grants to them directly. */
  ghost predicate RunsWithout(t: Tables, xs: seq<Transaction>, t': Tables, org: string, user: Id)
    decreases |xs|
  {
    if xs == [] then t' == t
    else exists mid :: Commits(t, xs[0], mid) && !LetsIn(xs[0], mid, org, user) && RunsWithout(mid, xs[1..], t', org, user)
  }

  /** No later sequence of logins, redemptions, group, mapping or membership changes gives access back. */
  lemma {:induction false} WithdrawalIsFinal(t: Tables, xs: seq<Transaction>, t': Tables, org: string, user: Id)
    requires Consistent(t) && NoAccess(t, org, user) && RunsWithout(t, xs, t', org, user)
    ensures NoAccess(t', org, user)
    decreases |xs|
  {
    hide Consistent, NoAccess, Commits, LetsIn;
    if xs != [] {
      var mid :| Commits(t, xs[0], mid) && !LetsIn(xs[0], mid, org, user) && RunsWithout(mid, xs[1..], t', org, user);
      CommitConsistent(t, xs[0], mid);
      TransactionKeepsNoAccess(t, xs[0], mid, org, user);
      WithdrawalIsFinal(mid, xs[1..], t', org, user);
    }
  }

  /** The internal grant has no governance gate: it always lets a withdrawn user back in. */
  lemma DirectGrantPassesTheGate(t: Tables, org: string, user: Id, subject: Subject, scope: string) returns (t': Tables)
    requires Consistent(t) && NoAccess(t, org, user) && RoleOfOrg(t.roles, org, subject)
    ensures Commits(t, OfAccess(GrantByHuman(org, user, subject, scope)), t')
    ensures Withdrawn(t'.rows, org, user) && !NoAccess(t', org, user)
  {
    var m := Membership(user, org, subject, scope);
    t' := InsertMembership(t, m, Human);
    HeldIsStored(t, m);
    assert forall g :: g in Grants(t) ==> g.membership != m;
    assert user in t.users;
    assert GrantOf(t', t.nextId) in Grants(t') && Belongs(GrantOf(t', t.nextId), org, user);
  }
}
