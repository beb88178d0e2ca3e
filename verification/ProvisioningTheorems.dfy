/**
 * SCIM user transactions in terms of the stored rows: who a provisioning is
 * about, what is stored, whose profile is written, and what a withdrawal takes.
 */
module ProvisioningTheorems {
  import opened Common
  import opened ScimTables
  import opened ScimReconcile
  import opened ReconcileTheorems
  import opened ScimOperations
  import opened AccessOperations
  import opened RoleOperations
  import opened ScimTheorems
  import opened LifecycleTheorems
  import opened IdentityTheorems
  import ScimPatch
  import PatchTheorems

  // ------------------------------------------------------------ who is provisioned

  /** The user's primary email is the one asked for, up to case: the request's, or else a user name that looks like one. */
  predicate AskedFor(t: Tables, input: NewUser, user: Id) {
    && (input.email != "" || '@' in input.userName)
    && user in t.users && t.users[user].email.Some?
    && SameText(t.users[user].email.value, if input.email != "" then input.email else input.userName)
  }

  lemma MatchesAreAskedFor(t: Tables, input: NewUser, user: Id)
    ensures user in EmailMatches(t, input) <==> AskedFor(t, input, user)
  {
    hide Lower;
    if user in t.users && t.users[user].email.Some? {
      LowerIff(t.users[user].email.value, input.email);
      LowerIff(t.users[user].email.value, input.userName);
    }
  }

  /** The user an external id stands for; else the one user with the email; else a new one; else nobody. */
  lemma WhoIsProvisioned(t: Tables, input: NewUser, user: Id)
    requires Consistent(t)
    ensures ResolvesTo(t, input, user) <==>
      if input.externalId != "" && exists u :: StandsFor(t, input.org, input.externalId, u)
      then StandsFor(t, input.org, input.externalId, user)
      else if exists u :: AskedFor(t, input, u)
      then AskedFor(t, input, user) && forall u :: AskedFor(t, input, u) ==> u == user
      else user == t.nextId
  {
    hide ScimKey, AskedFor, EmailMatches, StandsFor, UniqueMemberships, UniqueLiveRows, ManagedShape, GroupsWellFormed, MappingsWellFormed, UniqueRoleNames;
    if input.externalId != "" {
      forall u: Id ensures StandsFor(t, input.org, input.externalId, u)
        <==> ScimKey(input.org, input.externalId) in t.identities && t.identities[ScimKey(input.org, input.externalId)] == u
      {
        StandsForBound(t, input.org, input.externalId, u);
      }
      if KnownByIdentity(t, input) {
        assert StandsFor(t, input.org, input.externalId, t.identities[ScimKey(input.org, input.externalId)]);
      }
    }
    forall u: Id ensures u in EmailMatches(t, input) <==> AskedFor(t, input, u) {
      MatchesAreAskedFor(t, input, u);
    }
    if EmailMatches(t, input) != {} {
      var u :| u in EmailMatches(t, input);
      assert EmailMatches(t, input) == {user} <==> user in EmailMatches(t, input) && forall v :: v in EmailMatches(t, input) ==> v == user;
    }
  }

  // ------------------------------------------------------------------ what is stored

  /** Provisioning stores one new row, as requested, for a user without a live one, and a new user only if nobody was found. */
  lemma ProvisioningStores(t: Tables, op: UserOp, t': Tables, viewer: Id)
    requires Consistent(t) && op.Provision? && UserCommits(t, op, t', viewer)
    ensures exists id: Id :: id !in t.rows && t'.rows == t.rows[id := ScimRow(op.input.org, op.user, op.input.userName,
      if op.input.externalId == "" then None else Some(op.input.externalId), op.input.active, false, op.input.now)]
    ensures forall id :: id in t.rows && t.rows[id].org == op.input.org && !t.rows[id].deleted ==>
      t.rows[id].user != op.user && !SameText(t.rows[id].userName, op.input.userName)
    ensures if op.user in t.users then t'.users == t.users
            else t'.users == t.users[op.user := User(
              if op.input.email != "" then Some(op.input.email) else if '@' in op.input.userName then Some(op.input.userName) else None)]
  {
    hide UniqueMemberships, UniqueLiveRows, ManagedShape, GroupsWellFormed, MappingsWellFormed, UniqueRoleNames, UserWrite, Lower, ResolvesTo, Reconciled, Grants;
    UserWriteTables(t, op);
    ProvisionedUsers(t, op);
    ReconcileKeepsPeople(UserWrite(t, op), t', UserOpOrg(op), UserReconciles(t, op), viewer);
    assert NewRowId(t, op.input, op.user) !in t.rows;
    forall id | id in t.rows && t.rows[id].org == op.input.org && !t.rows[id].deleted
      ensures !SameText(t.rows[id].userName, op.input.userName)
    {
      LowerIff(t.rows[id].userName, op.input.userName);
    }
  }

  lemma ProvisionedUsers(t: Tables, op: UserOp)
    requires op.Provision?
    ensures UserWrite(t, op).users == WithUser(t, op.input, op.user).users
  {
    hide WithUser, NewRow;
    var t1 := WithUser(t, op.input, op.user);
    var t2 := t1.(rows := t1.rows[t1.nextId := NewRow(op.input, op.user)], nextId := t1.nextId + 1);
    if op.input.active {
      assert UserWrite(t, op) == t2.(outbox := t2.outbox + [Provisioned(t1.nextId)]);
    } else {
      assert UserWrite(t, op) == t2;
    }
  }

  lemma UpdatedUsers(t: Tables, op: UserOp)
    requires op.Update?
    ensures UserWrite(t, op).users == ProfileUsers(t.users, RowsAfter(t, op), op.id, op.updated.user, op.email)
  {
    hide RowWritten, AccessRemoved;
    var e := op.existing;
    if Deactivates(op) {
      AccessRemovedKeepsPeople(t, e.org, e.user, e.userName);
      AccessRemovedFrame(t, e.org, e.user, e.userName);
      RowWrittenProfile(WithEvent(AccessRemoved(t, e.org, e.user, e.userName), Deprovisioned(op.id, Deactivated)), op);
    } else if Activates(op) {
      RowWrittenProfile(WithEvent(t, Provisioned(op.id)), op);
    } else {
      RowWrittenProfile(t, op);
    }
  }

  lemma RowWrittenProfile(t: Tables, op: UserOp)
    requires op.Update?
    ensures RowWritten(t, op).users == ProfileUsers(t.users, t.rows[op.id := op.updated.(updatedAt := op.now)], op.id, op.updated.user, op.email)
  {
    hide SoleGovernor, BoundIdentities;
  }

  /**
   * An update stores the record it was sent, under a name nobody else has, over the
   * record that was read; the shared profile takes its email only if no other live
   * record, of any organization, is of the same user.
   */
  lemma UpdateStores(t: Tables, op: UserOp, t': Tables, viewer: Id)
    requires op.Update? && UserCommits(t, op, t', viewer)
    ensures op.id in t.rows && t.rows[op.id] == op.existing && !op.existing.deleted
    ensures t'.rows == t.rows[op.id := op.updated.(org := op.existing.org, user := op.existing.user, deleted := false, updatedAt := op.now)]
    ensures forall id :: id in t.rows && id != op.id && t.rows[id].org == op.existing.org && !t.rows[id].deleted ==>
      !SameText(t.rows[id].userName, op.updated.userName)
    ensures t'.users ==
      if op.email != "" && forall id :: id in t.rows && id != op.id && !t.rows[id].deleted ==> t.rows[id].user != op.existing.user
      then t.users[op.existing.user := User(Some(op.email))] else t.users
  {
    hide Consistent, UserWrite, Lower, Reconciled, Grants, NeedsViewer, Targets, IdentityFree;
    UserWriteTables(t, op);
    UpdatedUsers(t, op);
    ReconcileKeepsPeople(UserWrite(t, op), t', UserOpOrg(op), UserReconciles(t, op), viewer);
    forall id | id in t.rows && id != op.id && t.rows[id].org == op.existing.org && !t.rows[id].deleted
      ensures !SameText(t.rows[id].userName, op.updated.userName)
    {
      LowerIff(t.rows[id].userName, op.updated.userName);
    }
    var rows := RowsAfter(t, op);
    assert SoleGovernor(rows, op.id, op.existing.user)
      <==> forall id :: id in t.rows && id != op.id && !t.rows[id].deleted ==> t.rows[id].user != op.existing.user
    by {
      assert forall id :: id in t.rows && id != op.id ==> id in rows && rows[id] == t.rows[id];
    }
  }

  /** A deletion leaves an inactive tombstone, which is in no group. */
  lemma DeletionStores(t: Tables, op: UserOp, t': Tables, viewer: Id)
    requires op.Delete? && UserCommits(t, op, t', viewer)
    ensures op.id in t.rows && t.rows[op.id] == op.existing && !op.existing.deleted
    ensures t'.rows == t.rows[op.id := op.existing.(active := false, deleted := true, updatedAt := op.now)]
    ensures t'.groups.Keys == t.groups.Keys
    ensures forall g :: g in t.groups ==> t'.groups[g] == t.groups[g].(members := t.groups[g].members - {op.id})
  {
    hide Consistent, UserWrite, Reconciled, Grants, NeedsViewer, Targets;
    UserWriteTables(t, op);
  }

  // -------------------------------------------------------------- what a withdrawal takes

  /** The invitation is to one of the addresses the organization knows the user by, up to case. */
  predicate InvitesUser(t: Tables, invitation: Invitation, existing: ScimRow) {
    && invitation.org == existing.org
    && (|| (existing.user in t.users && t.users[existing.user].email.Some? && SameText(invitation.email, t.users[existing.user].email.value))
        || ((exists i :: 0 < i < |existing.userName| && existing.userName[i] == '@') && existing.userName[0] != '@'
            && SameText(invitation.email, existing.userName)))
  }

  lemma AddressedIsRaw(t: Tables, invitation: Invitation, existing: ScimRow)
    ensures AddressedTo(invitation, existing.org, EmailOf(t, existing.user), existing.userName) <==> InvitesUser(t, invitation, existing)
  {
    hide Lower;
    LowerIff(invitation.email, existing.userName);
    if existing.user in t.users && t.users[existing.user].email.Some? {
      LowerIff(invitation.email, t.users[existing.user].email.value);
    }
  }

  predicate HasGrantAnywhere(t: Tables, user: Id) {
    exists g :: g in Grants(t) && g.membership.user == user
  }

  /**
   * A deactivation or deletion takes the user's memberships and invitations in the
   * organization, and no others; sessions go when no membership is left anywhere.
   */
  lemma WithdrawalTakes(t: Tables, op: UserOp, t': Tables, viewer: Id)
    requires Consistent(t) && UserCommits(t, op, t', viewer)
    requires op.Delete? || (op.Update? && op.existing.active && !op.updated.active)
    ensures forall g :: g in Grants(t') <==> g in Grants(t) && !(g.membership.org == op.existing.org && g.membership.user == op.existing.user)
    ensures forall i :: i in t'.invitations <==> i in t.invitations && !InvitesUser(t, t.invitations[i], op.existing)
    ensures forall s :: s in t'.sessions <==> s in t.sessions && (t.sessions[s] != op.existing.user || HasGrantAnywhere(t', op.existing.user))
    ensures forall d :: d in t'.devices <==> d in t.devices && (t.devices[d] != Some(op.existing.user) || HasGrantAnywhere(t', op.existing.user))
  {
    hide Consistent, Grants, UserWrite, AccessRemoved, UserOpAllowed, AddressedTo, InvitesUser, Reconciled;
    var e := op.existing;
    var w := AccessRemoved(t, e.org, e.user, e.userName);
    WithdrawalTables(t, op);
    UserWriteConsistent(t, op);
    NothingReconciled(UserWrite(t, op), t', e.org, viewer);
    NothingBelongsAfter(t, e.org, e.user, e.userName);
    AccessRemovedIsRaw(t, e);
    forall i | i in t.invitations ensures AddressedTo(t.invitations[i], e.org, EmailOf(t, e.user), e.userName) <==> InvitesUser(t, t.invitations[i], e) {
      AddressedIsRaw(t, t.invitations[i], e);
    }
  }

  /** The sessions and devices left are the others', and the user's if a membership is left. */
  ghost predicate SessionsLeft(t: Tables, w: Tables, user: Id) {
    && (forall s :: s in w.sessions <==> s in t.sessions && (t.sessions[s] != user || HasMembershipAnywhere(w.memberships, user)))
    && (forall d :: d in w.devices <==> d in t.devices && (t.devices[d] != Some(user) || HasMembershipAnywhere(w.memberships, user)))
  }

  lemma EndedSessions(t: Tables, user: Id)
    ensures SessionsLeft(t, if HasMembershipAnywhere(t.memberships, user) then t else WithoutSessions(t, user), user)
  {
    hide HasMembershipAnywhere;
  }

  lemma AccessRemovedIsRaw(t: Tables, e: ScimRow)
    ensures var w := AccessRemoved(t, e.org, e.user, e.userName);
      && (forall i :: i in w.invitations <==> i in t.invitations && !AddressedTo(t.invitations[i], e.org, EmailOf(t, e.user), e.userName))
      && SessionsLeft(t, w, e.user)
  {
    hide AddressedTo, EmailOf, HasMembershipAnywhere, MembershipIdsOf, SessionsLeft, WithoutSessions;
    var left := InvitationsLeft(t.invitations, e.org, EmailOf(t, e.user), e.userName);
    assert AccessRemoved(t, e.org, e.user, e.userName).invitations == left by { AccessRemovedInvitationsAre(t, e); }
    hide InvitationsLeft;
    var t2 := DeleteMemberships(t, MembershipIdsOf(t.memberships, e.org, e.user)).(invitations := left);
    EndedSessions(t2, e.user);
    SameSessions(t, t2, AccessRemoved(t, e.org, e.user, e.userName), e.user);
  }

  lemma AccessRemovedInvitationsAre(t: Tables, e: ScimRow)
    ensures AccessRemoved(t, e.org, e.user, e.userName).invitations
            == InvitationsLeft(t.invitations, e.org, EmailOf(t, e.user), e.userName)
  {
    hide AddressedTo, EmailOf, HasMembershipAnywhere, MembershipIdsOf, InvitationsLeft, DeleteMemberships;
  }

  lemma SameSessions(t: Tables, t2: Tables, w: Tables, user: Id)
    requires t2.sessions == t.sessions && t2.devices == t.devices && SessionsLeft(t2, w, user)
    ensures SessionsLeft(t, w, user)
  {
  }

  /** The update a PATCH commits: the record read, with the operations folded over it. */
  function PatchOf(id: Id, existing: ScimRow, edit: ScimPatch.UserEdit, now: nat): UserOp {
    Update(id, existing, ScimPatch.PatchedRow(existing, edit), ScimPatch.SentEmail(edit), now)
  }

  /** A PATCH whose last say on the active flag is false takes an active user's access away. */
  lemma PatchedInactive(t: Tables, t': Tables, id: Id, existing: ScimRow, raws: seq<ScimPatch.RawOp>, ops: seq<ScimPatch.Op>, k: nat, now: nat)
    requires Consistent(t) && existing.active
    requires ScimPatch.Normalizes(raws, ops) && PatchTheorems.Decided(raws, "active", k, PatchTheorems.IsActive(false))
    requires ScimPatch.Fold(ScimPatch.EditUser, Some(ScimPatch.UserEditOf(existing)), ops).Some?
    requires Commits(t, OfUser(PatchOf(id, existing, ScimPatch.Fold(ScimPatch.EditUser, Some(ScimPatch.UserEditOf(existing)), ops).value, now)), t')
    ensures id in t'.rows && !t'.rows[id].active
    ensures forall g :: g in Grants(t') <==> g in Grants(t) && !(g.membership.org == existing.org && g.membership.user == existing.user)
  {
    hide Consistent, UserCommits, Grants;
    hide ScimPatch.Normalizes, ScimPatch.EditUser, PatchTheorems.Decided;
    var user := ScimPatch.UserEditOf(existing);
    var edit := ScimPatch.Fold(ScimPatch.EditUser, Some(user), ops).value;
    PatchTheorems.UserPatchMeans(user, raws, ops, "active");
    var op := PatchOf(id, existing, edit, now);
    var viewer :| UserCommits(t, op, t', viewer);
    UpdateStores(t, op, t', viewer);
    WithdrawalTakes(t, op, t', viewer);
  }

  /** In particular one operation that sets it to "false", however written. */
  lemma PatchedToFalse(t: Tables, t': Tables, id: Id, existing: ScimRow, raw: ScimPatch.RawOp, s: string, ops: seq<ScimPatch.Op>, now: nat)
    requires Consistent(t) && existing.active
    requires ScimPatch.Normalizes([raw], ops) && PatchTheorems.SetsActive(raw, ScimPatch.Text(s)) && SameText(s, "false")
    ensures var edit := ScimPatch.Fold(ScimPatch.EditUser, Some(ScimPatch.UserEditOf(existing)), ops);
      edit.Some? && (Commits(t, OfUser(PatchOf(id, existing, edit.value, now)), t') ==>
        && id in t'.rows && t'.rows[id] == existing.(active := false, updatedAt := now)
        && forall g :: g in Grants(t') <==> g in Grants(t) && !(g.membership.org == existing.org && g.membership.user == existing.user))
  {
    hide Consistent, UserCommits, Grants;
    hide ScimPatch.Normalizes, ScimPatch.EditUser, PatchTheorems.SetsActive, ScimPatch.Fold;
    PatchTheorems.ActiveIsAsSent(ScimPatch.UserEditOf(existing), raw, ScimPatch.Text(s), ops);
    assert !SameText(s, "true");
    var edit := ScimPatch.Fold(ScimPatch.EditUser, Some(ScimPatch.UserEditOf(existing)), ops).value;
    var op := PatchOf(id, existing, edit, now);
    if Commits(t, OfUser(op), t') {
      var viewer :| UserCommits(t, op, t', viewer);
      UpdateStores(t, op, t', viewer);
      WithdrawalTakes(t, op, t', viewer);
    }
  }

  // ---------------------------------------------------------------- names stay unique

  /** No two live records of one organization have the same user name, whatever its case. */
  predicate UniqueUserNames(rows: map<Id, ScimRow>) {
    forall i, j :: i in rows && j in rows && SameUserName(rows[i], rows[j]) ==> i == j
  }

  predicate SameUserName(r: ScimRow, s: ScimRow) {
    !r.deleted && !s.deleted && r.org == s.org && SameText(r.userName, s.userName)
  }

  lemma UserTransactionKeepsNames(t: Tables, op: UserOp, t': Tables, viewer: Id)
    requires Consistent(t) && UserCommits(t, op, t', viewer) && UniqueUserNames(t.rows)
    ensures UniqueUserNames(t'.rows)
  {
    hide Consistent, UserCommits, SameText;
    match op
    case Provision(_, _) =>
      ProvisioningStores(t, op, t', viewer);
      NewNameUnique(t, op, t');
    case Update(_, _, _, _, _) =>
      UpdateStores(t, op, t', viewer);
      forall i, j | i in t'.rows && j in t'.rows && SameUserName(t'.rows[i], t'.rows[j]) ensures i == j {
        NamesAlike(t'.rows[i].userName, t'.rows[j].userName);
        if i != op.id && j != op.id {
          assert SameUserName(t.rows[i], t.rows[j]);
        }
      }
    case Delete(_, _, _) =>
      DeletionStores(t, op, t', viewer);
      forall i, j | i in t'.rows && j in t'.rows && SameUserName(t'.rows[i], t'.rows[j]) ensures i == j {
        assert SameUserName(t.rows[i], t.rows[j]);
      }
  }

  lemma NamesAlike(a: string, b: string)
    ensures SameText(a, b) <==> SameText(b, a)
    ensures SameText(a, a)
  {
  }

  lemma NewNameUnique(t: Tables, op: UserOp, t': Tables)
    requires op.Provision? && UniqueUserNames(t.rows)
    requires exists id: Id :: id !in t.rows && t'.rows == t.rows[id := ScimRow(op.input.org, op.user, op.input.userName,
      if op.input.externalId == "" then None else Some(op.input.externalId), op.input.active, false, op.input.now)]
    requires forall id :: id in t.rows && t.rows[id].org == op.input.org && !t.rows[id].deleted ==> !SameText(t.rows[id].userName, op.input.userName)
    ensures UniqueUserNames(t'.rows)
  {
    hide SameText;
    forall i, j | i in t'.rows && j in t'.rows && SameUserName(t'.rows[i], t'.rows[j]) ensures i == j {
      NamesAlike(t'.rows[i].userName, t'.rows[j].userName);
      assert i in t.rows && j in t.rows ==> SameUserName(t.rows[i], t.rows[j]);
    }
  }

  /** User names stay unique along every run. */
  lemma {:induction false} RunsKeepUserNames(t: Tables, xs: seq<Transaction>, t': Tables)
    requires Consistent(t) && Runs(t, xs, t') && UniqueUserNames(t.rows)
    ensures UniqueUserNames(t'.rows)
    decreases |xs|
  {
    hide Consistent, UserCommits, GroupCommits, AccessCommits, RoleCommits, UniqueUserNames;
    if xs != [] {
      var mid :| Commits(t, xs[0], mid) && Runs(mid, xs[1..], t');
      CommitConsistent(t, xs[0], mid);
      if xs[0].OfUser? {
        var viewer :| UserCommits(t, xs[0].user, mid, viewer);
        UserTransactionKeepsNames(t, xs[0].user, mid, viewer);
      } else {
        RowsStay(t, xs[0], mid);
      }
      RunsKeepUserNames(mid, xs[1..], t');
    }
  }

  // -------------------------------------------------------------- what is let through

  /** When a SCIM user transaction goes through: neither more nor less than this is asked. */
  lemma UserChangesAllowed(t: Tables, op: UserOp)
    requires Consistent(t)
    ensures UserOpAllowed(t, op) <==>
      match op
      case Provision(input, user) =>
        && ResolvesTo(t, input, user)
        && forall id :: id in t.rows && t.rows[id].org == input.org && !t.rows[id].deleted ==>
             t.rows[id].user != user && !SameText(t.rows[id].userName, input.userName)
      case Update(id, existing, updated, _, _) =>
        && id in t.rows && t.rows[id] == existing && !existing.deleted
        && updated.org == existing.org && updated.user == existing.user && !updated.deleted
        && (forall k :: k in t.rows && k != id && t.rows[k].org == existing.org && !t.rows[k].deleted ==> !SameText(t.rows[k].userName, updated.userName))
        && (updated.externalId.Some? && updated.externalId != existing.externalId && updated.externalId != Some("") ==>
              forall u :: StandsFor(t, existing.org, updated.externalId.value, u) ==> u == existing.user)
        && (updated.externalId == Some("") && existing.externalId != Some("") ==> IdentityFree(t.identities, Identity(ScimIdentity, existing.org + ":"), existing.user))
      case Delete(id, existing, _) => id in t.rows && t.rows[id] == existing && !existing.deleted
  {
    hide Consistent, Lower, SameText, ResolvesTo, StandsFor;
    match op {
      case Provision(input, user) =>
        forall id | id in t.rows ensures Lower(t.rows[id].userName) == Lower(input.userName) <==> SameText(t.rows[id].userName, input.userName) {
          LowerIff(t.rows[id].userName, input.userName);
        }
      case Update(id, existing, updated, _, _) =>
        forall k | k in t.rows ensures Lower(t.rows[k].userName) == Lower(updated.userName) <==> SameText(t.rows[k].userName, updated.userName) {
          LowerIff(t.rows[k].userName, updated.userName);
        }
        if updated.externalId.Some? && updated.externalId.value != "" {
          forall u: Id ensures StandsFor(t, existing.org, updated.externalId.value, u)
            <==> ScimKey(existing.org, updated.externalId.value) in t.identities && t.identities[ScimKey(existing.org, updated.externalId.value)] == u
          {
            StandsForBound(t, existing.org, updated.externalId.value, u);
          }
          var key := ScimKey(existing.org, updated.externalId.value);
          assert key in t.identities ==> StandsFor(t, existing.org, updated.externalId.value, t.identities[key]);
          hide ScimKey;
        } else {
          assert existing.org + ":" + "" == existing.org + ":";
        }
      case Delete(_, _, _) =>
    }
  }
}
