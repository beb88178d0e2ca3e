/**
 * What transactions remember about people: identities bound once keep resolving
 * to the same user, a shared profile has one writer, and an invitation is used once.
 */
module IdentityTheorems {
  import opened Common
  import opened ScimTables
  import opened ScimReconcile
  import opened ScimOperations
  import opened AccessOperations
  import opened RoleOperations
  import opened ScimTheorems
  import Decision

  lemma ReconcileKeepsPeople(w: Tables, t': Tables, org: string, ids: set<Id>, viewer: Id)
    requires ReconciledTo(w, t', org, ids, viewer)
    ensures t'.identities == w.identities && t'.users == w.users
  {
    hide Consistent, Grants, Reconciled, NeedsViewer, Targets, RolesListedOrSeeded;
  }

  // ---------------------------------------------------------------- SCIM identities

  lemma WithUserBinds(t: Tables, input: NewUser, user: Id)
    requires input.externalId != "" && ResolvesTo(t, input, user)
    ensures var key := ScimKey(input.org, input.externalId); var w := WithUser(t, input, user);
      key in w.identities && w.identities[key] == user
  {
    hide EmailMatches, EmailToSearch;
  }

  lemma ProvisionKeepsPeople(t: Tables, op: UserOp)
    requires op.Provision?
    ensures UserWrite(t, op).identities == WithUser(t, op.input, op.user).identities
  {
    hide WithUser, NewRow;
    var t1 := WithUser(t, op.input, op.user);
    var t2 := t1.(rows := t1.rows[t1.nextId := NewRow(op.input, op.user)], nextId := t1.nextId + 1);
    if op.input.active {
      assert UserWrite(t, op) == t2.(outbox := t2.outbox + [Provisioned(t1.nextId)]);
    } else {
      assert UserWrite(t, op) == t2;
    }
  }

  /** Provisioning the same external id again finds the same person, whatever email comes with it. */
  lemma ProvisioningIsRemembered(t: Tables, op: UserOp, t': Tables, viewer: Id, again: NewUser)
    requires op.Provision? && UserCommits(t, op, t', viewer) && op.input.externalId != ""
    requires again.org == op.input.org && again.externalId == op.input.externalId
    ensures forall u: Id :: ResolvesTo(t', again, u) <==> u == op.user
  {
    hide Consistent, Grants, ReconciledTo, UserWrite, WithUser, NameFree, LiveRowFree, EmailMatches;
    WithUserBinds(t, op.input, op.user);
    ProvisionKeepsPeople(t, op);
    ReconcileKeepsPeople(UserWrite(t, op), t', UserOpOrg(op), UserReconciles(t, op), viewer);
  }

  lemma RowWrittenIdentities(t: Tables, op: UserOp)
    requires op.Update?
    ensures RowWritten(t, op).identities
            == if BindsIdentity(op) then t.identities[ScimKey(op.updated.org, op.updated.externalId.value) := op.updated.user] else t.identities
  {
    hide SoleGovernor, BindsIdentity;
  }

  lemma AccessRemovedKeepsPeople(t: Tables, org: string, user: Id, userName: string)
    ensures AccessRemoved(t, org, user, userName).identities == t.identities && AccessRemoved(t, org, user, userName).users == t.users
  {
    hide AddressedTo, MembershipIdsOf, HasMembershipAnywhere;
  }

  lemma UpdateIdentities(t: Tables, op: UserOp)
    requires op.Update?
    ensures UserWrite(t, op).identities
            == if BindsIdentity(op) then t.identities[ScimKey(op.updated.org, op.updated.externalId.value) := op.updated.user] else t.identities
  {
    hide RowWritten, AccessRemoved, BindsIdentity;
    var e := op.existing;
    if Deactivates(op) {
      AccessRemovedKeepsPeople(t, e.org, e.user, e.userName);
      RowWrittenIdentities(WithEvent(AccessRemoved(t, e.org, e.user, e.userName), Deprovisioned(op.id, Deactivated)), op);
    } else if Activates(op) {
      RowWrittenIdentities(WithEvent(t, Provisioned(op.id)), op);
    } else {
      RowWrittenIdentities(t, op);
    }
  }

  /** A changed external id is bound to the same person, and retired keys keep their meaning. */
  lemma RebindingIsRemembered(t: Tables, op: UserOp, t': Tables, viewer: Id)
    requires op.Update? && UserCommits(t, op, t', viewer)
    ensures forall k :: k in t.identities ==> k in t'.identities && t'.identities[k] == t.identities[k]
    ensures BindsIdentity(op) ==>
      var key := ScimKey(op.updated.org, op.updated.externalId.value);
      key in t'.identities && t'.identities[key] == op.existing.user
  {
    hide Consistent, Grants, ReconciledTo, UserWrite, NameFree;
    UpdateIdentities(t, op);
    ReconcileKeepsPeople(UserWrite(t, op), t', UserOpOrg(op), UserReconciles(t, op), viewer);
  }

  // ------------------------------------------- organizations keep their ids to themselves

  /** Keys of different organizations are different, unless one organization's id continues the other's after a colon. */
  lemma KeysClashIff(org: string, other: string)
    requires org != other
    ensures (exists e, f :: ScimKey(org, e) == ScimKey(other, f)) <==> org + ":" <= other || other + ":" <= org
  {
    if e, f :| ScimKey(org, e) == ScimKey(other, f) {
      var s := org + ":" + e;
      assert s == other + ":" + f;
      assert s[..|org| + 1] == org + ":" && s[..|other| + 1] == other + ":";
      assert org == s[..|org|] && other == s[..|other|];
      assert |org| != |other|;
    }
    if org + ":" <= other {
      ClashingIds(org, other);
    }
    if other + ":" <= org {
      ClashingIds(other, org);
    }
  }

  lemma ClashingIds(org: string, other: string)
    requires org + ":" <= other
    ensures ScimKey(org, other[|org| + 1..] + ":") == ScimKey(other, "")
  {
    assert other == org + ":" + other[|org| + 1..];
  }

  /** Without colons in organization ids a key tells the organization and its external id. */
  lemma KeysTellApart(org: string, e: string, other: string, f: string)
    requires ':' !in org && ':' !in other && ScimKey(org, e) == ScimKey(other, f)
    ensures org == other && e == f
  {
    assert org + ":" + e == org + [':'] + e && other + ":" + f == other + [':'] + f;
    Decision.SplitAtFirst(org, e, other, f, ':');
  }

  /** A request that names nothing but the external id: it can be nobody but whom the id stands for, or someone new. */
  function Nameless(org: string, externalId: string): NewUser {
    NewUser(org, "", externalId, "", false, 0)
  }

  /** The user an organization's external id stands for. */
  predicate StandsFor(t: Tables, org: string, externalId: string, user: Id) {
    user in t.users && ResolvesTo(t, Nameless(org, externalId), user)
  }

  lemma StandsForBound(t: Tables, org: string, externalId: string, user: Id)
    requires Consistent(t) && externalId != ""
    ensures StandsFor(t, org, externalId, user)
            <==> ScimKey(org, externalId) in t.identities && t.identities[ScimKey(org, externalId)] == user
  {
    hide UniqueMemberships, UniqueLiveRows, ManagedShape, GroupsWellFormed, MappingsWellFormed, UniqueRoleNames, ScimKey;
    assert EmailMatches(t, Nameless(org, externalId)) == {};
  }

  /** Whoever else writes, no identity key of this organization changes. */
  ghost predicate KeysKept(t: Tables, t': Tables, org: string) {
    forall e :: IdentityKept(t, t', ScimKey(org, e))
  }

  predicate IdentityKept(t: Tables, t': Tables, key: Identity) {
    && (key in t'.identities <==> key in t.identities)
    && (key in t.identities ==> t'.identities[key] == t.identities[key])
  }

  predicate Concerns(x: Transaction, org: string) {
    x.OfUser? && UserOpOrg(x.user) == org
  }

  /** The organizations of a run have ids without colons. */
  predicate ClearOrg(x: Transaction) {
    x.OfUser? ==> ':' !in UserOpOrg(x.user)
  }

  lemma UserTransactionKeepsKeys(t: Tables, op: UserOp, t': Tables, viewer: Id, org: string)
    requires UserCommits(t, op, t', viewer) && UserOpOrg(op) != org && ':' !in org && ':' !in UserOpOrg(op)
    ensures KeysKept(t, t', org)
  {
    hide Consistent, Grants, ReconciledTo, UserWrite, WithUser, NameFree, LiveRowFree, ResolvesTo, ScimKey;
    var w := UserWrite(t, op);
    ReconcileKeepsPeople(w, t', UserOpOrg(op), UserReconciles(t, op), viewer);
    forall e ensures IdentityKept(t, t', ScimKey(org, e)) {
      match op
      case Provision(input, user) =>
        ProvisionKeepsPeople(t, op);
        WithUserIdentities(t, input, user);
        if ScimKey(org, e) == ScimKey(input.org, input.externalId) {
          KeysTellApart(org, e, input.org, input.externalId);
        }
      case Update(_, _, updated, _, _) =>
        UpdateIdentities(t, op);
        if BindsIdentity(op) && ScimKey(org, e) == ScimKey(updated.org, updated.externalId.value) {
          KeysTellApart(org, e, updated.org, updated.externalId.value);
        }
      case Delete(_, existing, _) => DeleteIdentities(t, op);
    }
  }

  lemma WithUserIdentities(t: Tables, input: NewUser, user: Id)
    ensures WithUser(t, input, user).identities == t.identities
            || WithUser(t, input, user).identities == t.identities[ScimKey(input.org, input.externalId) := user]
  {
    hide EmailToSearch, KnownByIdentity, ScimKey;
  }

  lemma DeleteIdentities(t: Tables, op: UserOp)
    requires op.Delete?
    ensures UserWrite(t, op).identities == t.identities
  {
    hide AccessRemoved, WithoutMember;
    AccessRemovedKeepsPeople(t, op.existing.org, op.existing.user, op.existing.userName);
  }

  lemma GroupTransactionKeepsKeys(t: Tables, op: GroupOp, t': Tables, viewer: Id)
    requires GroupCommits(t, op, t', viewer)
    ensures t'.identities == t.identities
  {
    hide Consistent, ReconciledTo, GroupOpAllowed, Concerned;
    ReconcileKeepsPeople(GroupWrite(t, op), t', GroupOpOrg(t, op), GroupReconciles(t, op), viewer);
  }

  lemma AccessTransactionKeepsKeys(t: Tables, op: AccessOp, t': Tables, org: string)
    requires AccessCommits(t, op, t')
    ensures KeysKept(t, t', org)
  {
    hide AccessOpAllowed, LoginMembership, HasSubject, MembershipIdsOf;
    match op {
      case Login(o, key, email, user, role) => LoginMembershipKeepsPeople(LoginUser(t, key, email, user), o, user, role);
      case ReplaceByHuman(o, user, requests) =>
        InsertAllKeepsIdentities(DeleteMemberships(t, MembershipIdsOf(t.memberships, o, user)), o, user, requests);
      case _ =>
    }
  }

  lemma {:induction false} InsertAllKeepsIdentities(t: Tables, org: string, user: Id, requests: seq<(Subject, string)>)
    ensures InsertAll(t, org, user, requests).identities == t.identities
    decreases |requests|
  {
    if requests != [] {
      InsertAllKeepsIdentities(t, org, user, requests[..|requests| - 1]);
    }
  }

  lemma TransactionKeepsKeys(t: Tables, x: Transaction, t': Tables, org: string)
    requires Commits(t, x, t') && !Concerns(x, org) && ClearOrg(x) && ':' !in org
    ensures KeysKept(t, t', org)
  {
    hide UserCommits, GroupCommits, AccessCommits, ScimKey, RolesAfter, MappingsAfter, NextIdAfter, RoleOpAllowed;
    match x
    case OfUser(op) =>
      var viewer :| UserCommits(t, op, t', viewer);
      UserTransactionKeepsKeys(t, op, t', viewer, org);
    case OfGroup(op) =>
      var viewer :| GroupCommits(t, op, t', viewer);
      GroupTransactionKeepsKeys(t, op, t', viewer);
    case OfAccess(op) => AccessTransactionKeepsKeys(t, op, t', org);
    case OfRole(_) =>
  }

  ghost predicate RunsElsewhere(t: Tables, xs: seq<Transaction>, t': Tables, org: string)
    decreases |xs|
  {
    if xs == [] then t' == t
    else exists mid :: Commits(t, xs[0], mid) && !Concerns(xs[0], org) && ClearOrg(xs[0]) && RunsElsewhere(mid, xs[1..], t', org)
  }

  lemma {:induction false} RunsKeepKeys(t: Tables, xs: seq<Transaction>, t': Tables, org: string)
    requires Consistent(t) && RunsElsewhere(t, xs, t', org) && ':' !in org
    ensures Consistent(t') && KeysKept(t, t', org)
    decreases |xs|
  {
    hide Consistent, Commits, ScimKey;
    if xs != [] {
      var mid :| Commits(t, xs[0], mid) && !Concerns(xs[0], org) && ClearOrg(xs[0]) && RunsElsewhere(mid, xs[1..], t', org);
      CommitConsistent(t, xs[0], mid);
      TransactionKeepsKeys(t, xs[0], mid, org);
      RunsKeepKeys(mid, xs[1..], t', org);
      forall e ensures IdentityKept(t, t', ScimKey(org, e)) {
        assert IdentityKept(t, mid, ScimKey(org, e)) && IdentityKept(mid, t', ScimKey(org, e));
      }
    }
  }

  /**
   * Whatever other organizations provision, rebind or delete, and whoever logs in
   * or is granted something: an external id of this organization stands for the
   * same user afterwards, and for nobody if it stood for nobody.
   */
  lemma OtherOrganizationsDoNotMatter(t: Tables, xs: seq<Transaction>, t': Tables, org: string, externalId: string, user: Id)
    requires Consistent(t) && RunsElsewhere(t, xs, t', org) && ':' !in org && externalId != ""
    ensures StandsFor(t', org, externalId, user) <==> StandsFor(t, org, externalId, user)
  {
    hide Consistent, StandsFor, ScimKey;
    RunsKeepKeys(t, xs, t', org);
    StandsForBound(t, org, externalId, user);
    StandsForBound(t', org, externalId, user);
    assert IdentityKept(t, t', ScimKey(org, externalId));
  }

  /** An external id that stands for someone decides, whatever name and email come with it. */
  lemma ExternalIdDecides(t: Tables, input: NewUser, user: Id, u: Id)
    requires Consistent(t) && input.externalId != "" && StandsFor(t, input.org, input.externalId, user)
    ensures ResolvesTo(t, input, u) <==> u == user
  {
    StandsForBound(t, input.org, input.externalId, user);
  }

  /** The transaction hands out this external id. */
  predicate HandsOut(op: UserOp, externalId: string) {
    match op
    case Provision(input, _) => input.externalId == externalId
    case Update(_, existing, updated, _, _) => updated.externalId == Some(externalId) && existing.externalId != Some(externalId)
    case Delete(_, _, _) => false
  }

  /** Within the organization exactly the id handed out changes hands: it stands for the person of the record. */
  lemma OwnIdsAfter(t: Tables, op: UserOp, t': Tables, viewer: Id, externalId: string, user: Id)
    requires Consistent(t) && UserCommits(t, op, t', viewer) && externalId != ""
    ensures StandsFor(t', UserOpOrg(op), externalId, user) <==>
      if HandsOut(op, externalId) then user == (if op.Provision? then op.user else op.existing.user)
      else StandsFor(t, UserOpOrg(op), externalId, user)
  {
    hide Consistent, StandsFor, Grants, ReconciledTo, UserWrite, WithUser, NameFree, LiveRowFree, ResolvesTo, ScimKey;
    var org := UserOpOrg(op);
    assert Consistent(t') by { CommitConsistent(t, OfUser(op), t'); }
    StandsForBound(t, org, externalId, user);
    StandsForBound(t', org, externalId, user);
    ReconcileKeepsPeople(UserWrite(t, op), t', org, UserReconciles(t, op), viewer);
    match op
    case Provision(input, person) =>
      ProvisionKeepsPeople(t, op);
      if input.externalId != "" {
        WithUserBinds(t, input, person);
      }
      if externalId != input.externalId {
        WithUserIdentitiesAre(t, input, person, externalId);
      }
    case Update(_, existing, updated, _, _) =>
      UpdateIdentities(t, op);
      if updated.externalId.Some? {
        SameOrgKeys(org, externalId, updated.externalId.value);
      }
    case Delete(_, _, _) => DeleteIdentities(t, op);
  }

  lemma SameOrgKeys(org: string, e: string, f: string)
    ensures ScimKey(org, e) == ScimKey(org, f) <==> e == f
  {
    assert (org + ":" + e)[|org| + 1..] == e && (org + ":" + f)[|org| + 1..] == f;
  }

  lemma WithUserIdentitiesAre(t: Tables, input: NewUser, user: Id, externalId: string)
    requires externalId != input.externalId
    ensures IdentityKept(t, WithUser(t, input, user), ScimKey(input.org, externalId))
  {
    hide EmailToSearch, KnownByIdentity, ScimKey;
    SameOrgKeys(input.org, externalId, input.externalId);
  }

  // --------------------------------------------------------------- the shared profile

  lemma RowWrittenUsers(t: Tables, op: UserOp, other: Id)
    requires op.Update? && other != op.id && Live(t.rows, other) && t.rows[other].user == op.updated.user
    ensures RowWritten(t, op).users == t.users
  {
    hide BindsIdentity;
    var t1 := WithIdentity(t.(rows := t.rows[op.id := op.updated.(updatedAt := op.now)]), op);
    assert t1.users == t.users && other in t1.rows && Live(t1.rows, other);
    assert !SoleGovernor(t1.rows, op.id, op.updated.user);
  }

  /** With a second live SCIM record of the user, no organization's update touches the shared profile. */
  lemma SharedProfileStays(t: Tables, op: UserOp, t': Tables, viewer: Id, other: Id)
    requires op.Update? && UserCommits(t, op, t', viewer)
    requires other != op.id && Live(t.rows, other) && t.rows[other].user == op.existing.user
    ensures t'.users == t.users
  {
    hide Consistent, Grants, ReconciledTo, RowWritten, AccessRemoved, NameFree, BindsIdentity;
    var e := op.existing;
    if Deactivates(op) {
      AccessRemovedKeepsPeople(t, e.org, e.user, e.userName);
      AccessRemovedFrame(t, e.org, e.user, e.userName);
      RowWrittenUsers(WithEvent(AccessRemoved(t, e.org, e.user, e.userName), Deprovisioned(op.id, Deactivated)), op, other);
    } else if Activates(op) {
      RowWrittenUsers(WithEvent(t, Provisioned(op.id)), op, other);
    } else {
      RowWrittenUsers(t, op, other);
    }
    ReconcileKeepsPeople(UserWrite(t, op), t', UserOpOrg(op), UserReconciles(t, op), viewer);
  }

  // ---------------------------------------------------------- logins and invitations

  lemma LoginMembershipKeepsPeople(t: Tables, org: string, user: Id, role: Id)
    ensures LoginMembership(t, org, user, role).identities == t.identities
  {
    hide HasRoleMembership, HasRoles, WithBuiltins;
    var seeded := ListedOrSeeded(t, org);
    if seeded != t {
      assert seeded == t.(roles := WithBuiltins(t.roles, org, t.nextId), nextId := t.nextId + 3);
    }
  }

  /** After a login its SSO identity stands for the same user, in every organization and with any email. */
  lemma LoginIsRemembered(t: Tables, op: AccessOp, t': Tables, org: string, email: string, u: Id)
    requires op.Login? && AccessCommits(t, op, t') && LoginResolves(t', org, op.key, email, u)
    ensures u == op.user
  {
    hide LoginMembership, AccessOpAllowed, Withdrawn, GovernedMatches;
    LoginMembershipKeepsPeople(LoginUser(t, op.key, op.email, op.user), op.org, op.user, op.role);
  }

  /** A redeemed invitation is gone, and the user has what it promised. */
  lemma InvitationIsUsedUp(t: Tables, op: AccessOp, t': Tables)
    requires op.Redeem? && AccessCommits(t, op, t')
    ensures op.invitation !in t'.invitations
    ensures var i := t.invitations[op.invitation]; HasSubject(t'.memberships, i.org, op.user, i.subject)
  {
    hide Withdrawn, RoleOfOrg;
    var i := t.invitations[op.invitation];
    if HasSubject(t.memberships, i.org, op.user, i.subject) {
      assert t'.memberships == t.memberships;
    } else {
      assert t.nextId in t'.memberships && t'.memberships[t.nextId] == Membership(op.user, i.org, i.subject, "");
    }
  }
}
