/**
 * Logins and invitations in terms of the stored rows: who an assertion stands
 * for, when it is turned away, and which role a first membership gets.
 */
module LoginTheorems {
  import opened Common
  import opened ScimTables
  import opened ScimReconcile
  import opened ReconcileTheorems
  import opened ScimOperations
  import opened AccessOperations

  // ------------------------------------------------------------------ who logs in

  /** One of the organization's SCIM records is of this user. */
  predicate Listed(t: Tables, org: string, user: Id) {
    exists id :: id in t.rows && t.rows[id].org == org && t.rows[id].user == user
  }

  predicate ListedAsActive(t: Tables, org: string, user: Id) {
    exists id :: id in t.rows && t.rows[id].org == org && t.rows[id].user == user && t.rows[id].active && !t.rows[id].deleted
  }

  /** The user's address is this one, up to case, and the organization has a record of them. */
  predicate ListedWithEmail(t: Tables, org: string, email: string, user: Id) {
    && Listed(t, org, user) && user in t.users
    && t.users[user].email.Some? && SameText(t.users[user].email.value, email)
  }

  /** An organization that keeps records of a user lets them in only while one of them is active. */
  predicate PassesGate(t: Tables, org: string, user: Id) {
    Listed(t, org, user) ==> ListedAsActive(t, org, user)
  }

  lemma GateIsRaw(t: Tables, org: string, user: Id)
    ensures !Withdrawn(t.rows, org, user) <==> PassesGate(t, org, user)
  {
    if Listed(t, org, user) {
      var id :| id in t.rows && t.rows[id].org == org && t.rows[id].user == user;
      assert IsRowOf(t.rows[id], org, user);
    }
    if ListedAsActive(t, org, user) {
      var id :| id in t.rows && t.rows[id].org == org && t.rows[id].user == user && t.rows[id].active && !t.rows[id].deleted;
      assert Active(t.rows, id) && IsRowOf(t.rows[id], org, user);
    }
  }

  lemma MatchesAreRaw(t: Tables, org: string, email: string, user: Id)
    ensures user in GovernedMatches(t, org, email) <==> ListedWithEmail(t, org, email, user)
  {
    hide Lower, SameText;
    if user in t.users && t.users[user].email.Some? {
      LowerIff(t.users[user].email.value, email);
    }
    if ListedWithEmail(t, org, email, user) {
      var id :| id in t.rows && t.rows[id].org == org && t.rows[id].user == user;
      assert t.rows[id].user in GovernedMatches(t, org, email);
    }
  }

  /** The assertion stands for somebody who may come in. */
  ghost predicate CanLogIn(t: Tables, org: string, key: string, email: string) {
    if Identity(SsoIdentity, key) in t.identities then PassesGate(t, org, t.identities[Identity(SsoIdentity, key)])
    else
      && (forall u, v :: ListedWithEmail(t, org, email, u) && ListedWithEmail(t, org, email, v) ==> u == v)
      && (forall u :: ListedWithEmail(t, org, email, u) ==> PassesGate(t, org, u))
  }

  /** By bound identity, by the one listed user with the email, or as a new user; otherwise nobody logs in. */
  lemma WhoLogsIn(t: Tables, org: string, key: string, email: string, user: Id)
    ensures LoginResolves(t, org, key, email, user) <==>
      && CanLogIn(t, org, key, email)
      && (if Identity(SsoIdentity, key) in t.identities then user == t.identities[Identity(SsoIdentity, key)]
          else ListedWithEmail(t, org, email, user) || (user == t.nextId && forall u :: !ListedWithEmail(t, org, email, u)))
  {
    hide Withdrawn, GovernedMatches, ListedWithEmail, PassesGate;
    forall u: Id ensures !Withdrawn(t.rows, org, u) <==> PassesGate(t, org, u) {
      GateIsRaw(t, org, u);
    }
    forall u: Id ensures u in GovernedMatches(t, org, email) <==> ListedWithEmail(t, org, email, u) {
      MatchesAreRaw(t, org, email, u);
    }
    if GovernedMatches(t, org, email) != {} {
      var u :| u in GovernedMatches(t, org, email);
      assert GovernedMatches(t, org, email) == {user} <==> user in GovernedMatches(t, org, email) && forall v :: v in GovernedMatches(t, org, email) ==> v == user;
    }
  }

  // ------------------------------------------------------- what a login leaves behind

  /** The identity is bound, the asserted address stored, and a session begun; nobody else is touched. */
  lemma LoginTables(t: Tables, op: AccessOp, t': Tables)
    requires Consistent(t) && op.Login? && AccessCommits(t, op, t')
    ensures t'.users == t.users[op.user := User(Some(op.email))]
    ensures t'.identities == t.identities[Identity(SsoIdentity, op.key) := op.user]
    ensures exists s: Id :: s !in t.sessions && t'.sessions == t.sessions[s := op.user]
  {
    hide AccessOpAllowed, LoginMembership, UniqueMemberships, ManagedShape, UniqueLiveRows, GroupsWellFormed, MappingsWellFormed;
    var t1 := LoginUser(t, op.key, op.email, op.user);
    LoginMembershipFrame(t1, op.org, op.user, op.role);
    assert LoginMembership(t1, op.org, op.user, op.role).nextId !in t.sessions;
  }

  lemma LoginMembershipFrame(t: Tables, org: string, user: Id, role: Id)
    ensures var w := LoginMembership(t, org, user, role);
      w == t.(roles := w.roles, memberships := w.memberships, nextId := w.nextId) && t.nextId <= w.nextId
  {
    hide HasRoleMembership, ListedOrSeeded;
    SeedingFrame(t, org);
    HumanInsertIs(ListedOrSeeded(t, org), Membership(user, org, RoleSubject(role), ""));
    hide InsertMembership;
  }

  lemma HumanInsertIs(t: Tables, m: Membership)
    ensures InsertMembership(t, m, Human) == t.(nextId := t.nextId + 1, memberships := t.memberships[t.nextId := m])
  {
  }

  lemma SeedingFrame(t: Tables, org: string)
    ensures var w := ListedOrSeeded(t, org); w == t.(roles := w.roles, nextId := w.nextId) && t.nextId <= w.nextId
  {
    hide HasRoles, WithBuiltins;
    var w := ListedOrSeeded(t, org);
    if w != t {
      assert w == t.(roles := WithBuiltins(t.roles, org, t.nextId), nextId := t.nextId + 3);
    }
  }

  predicate HasMember(t: Tables, org: string) {
    exists m :: m in t.memberships && t.memberships[m].org == org
  }

  predicate HasRole(t: Tables, org: string, user: Id) {
    exists m :: m in t.memberships && t.memberships[m].org == org && t.memberships[m].user == user && t.memberships[m].subject.RoleSubject?
  }

  /** A human-owned, organization-wide membership in the role with this name. */
  predicate GrantsNamed(t: Tables, g: Grant, org: string, user: Id, name: string) {
    && g.owner == Human && g.membership.org == org && g.membership.user == user && g.membership.scope == ""
    && g.membership.subject.RoleSubject? && g.membership.subject.role in t.roles
    && t.roles[g.membership.subject.role] == Role(org, name)
  }

  /**
   * A login takes no grant away, and adds one exactly for a user without a role in
   * the organization: as Viewer if it has members, as Admin of one that has none.
   */
  lemma FirstGrant(t: Tables, op: AccessOp, t': Tables)
    requires Consistent(t) && op.Login? && AccessCommits(t, op, t')
    ensures Grants(t) <= Grants(t')
    ensures (exists g :: g in Grants(t') - Grants(t)) <==> !HasRole(t, op.org, op.user)
    ensures forall g, h :: g in Grants(t') - Grants(t) && h in Grants(t') - Grants(t) ==> g == h
    ensures forall g :: g in Grants(t') - Grants(t) ==>
      GrantsNamed(t', g, op.org, op.user, if HasMember(t, op.org) then "Viewer" else "Admin")
  {
    hide Consistent, Grants, LoginResolves, ListedOrSeeded, WithSession;
    AccessWriteConsistent(t, op);
    if !HasRole(t, op.org, op.user) {
      var m := Membership(op.user, op.org, RoleSubject(op.role), "");
      NotHeldYet(t, op.org, op.user, RoleSubject(op.role), "") by {
        assert !HasSubject(t.memberships, op.org, op.user, RoleSubject(op.role));
      }
      HeldIsStored(t, m);
      assert forall g :: g in Grants(t) ==> g.membership != m;
      LoginRoles(t, op);
      assert Grant(m, Human) in Grants(t') - Grants(t);
    }
  }

  lemma LoginRoles(t: Tables, op: AccessOp)
    requires op.Login? && !HasRoleMembership(t.memberships, op.org, op.user)
    ensures AccessWrite(t, op).roles == ListedOrSeeded(LoginUser(t, op.key, op.email, op.user), op.org).roles
  {
    hide ListedOrSeeded;
  }

  /** No login makes an administrator of an organization that has members. */
  lemma LoginsMakeNoAdmins(t: Tables, op: AccessOp, t': Tables, g: Grant)
    requires Consistent(t) && op.Login? && AccessCommits(t, op, t')
    requires HasMember(t, g.membership.org) && g in Grants(t') - Grants(t)
    ensures g.membership.subject.RoleSubject? && g.membership.subject.role in t'.roles
    ensures t'.roles[g.membership.subject.role].name != "Admin"
  {
    hide Grants, Consistent, AccessCommits;
    FirstGrant(t, op, t');
    assert "Viewer"[0] == 'V' && "Admin"[0] == 'A';
  }

  /** The role a first membership needs is there, or will be: an organization without roles gets the built-in ones. */
  predicate RoleAtHand(t: Tables, org: string, user: Id) {
    || HasRole(t, org, user)
    || (forall id :: id in t.roles ==> t.roles[id].org != org)
    || (exists id :: id in t.roles && t.roles[id] == Role(org, if HasMember(t, org) then "Viewer" else "Admin"))
  }

  /** Who may come in does, unless the organization has roles but lost the one a first membership needs. */
  lemma LoginSucceedsIff(t: Tables, org: string, key: string, email: string, user: Id)
    requires LoginResolves(t, org, key, email, user)
    ensures (exists role :: AccessOpAllowed(t, Login(org, key, email, user, role))) <==> RoleAtHand(t, org, user)
  {
    hide LoginResolves, LoginRole, RoleAtHand;
    var t1 := LoginUser(t, key, email, user);
    RoleIsFound(t1, org, user);
    SameRolesAtHand(t, t1, org, user);
    hide LoginUser;
    if role :| LoginRole(t1, org, user, role) {
      assert AccessOpAllowed(t, Login(org, key, email, user, role));
    }
  }

  lemma SameRolesAtHand(t: Tables, t': Tables, org: string, user: Id)
    requires t'.memberships == t.memberships && t'.roles == t.roles
    ensures RoleAtHand(t', org, user) <==> RoleAtHand(t, org, user)
  {
  }

  lemma RoleIsFound(t: Tables, org: string, user: Id)
    ensures (exists role :: LoginRole(t, org, user, role)) <==> RoleAtHand(t, org, user)
  {
    hide WithBuiltins;
    if HasRole(t, org, user) {
      assert LoginRole(t, org, user, 0);
    } else if HasRoles(t.roles, org) {
      assert ListedOrSeeded(t, org).roles == t.roles;
      if id :| id in t.roles && t.roles[id] == Role(org, if HasMember(t, org) then "Viewer" else "Admin") {
        assert LoginRole(t, org, user, id);
      }
    } else {
      SeededNames(t.roles, org, t.nextId);
      assert ListedOrSeeded(t, org).roles == WithBuiltins(t.roles, org, t.nextId);
      assert LoginRole(t, org, user, if HasMember(t, org) then t.nextId + 2 else t.nextId);
    }
  }

  lemma SeededNames(roles: map<Id, Role>, org: string, id: Id)
    ensures var w := WithBuiltins(roles, org, id);
      && id in w && w[id] == Role(org, "Admin") && id + 1 in w && w[id + 1] == Role(org, "Deployer")
      && id + 2 in w && w[id + 2] == Role(org, "Viewer")
  {
  }

  // --------------------------------------------------- invitations and human changes

  /** Redeeming uses the invitation up and gives what it promised, to whom the gate lets through; nothing else. */
  lemma RedemptionGives(t: Tables, op: AccessOp, t': Tables)
    requires Consistent(t) && op.Redeem? && AccessCommits(t, op, t')
    ensures op.invitation in t.invitations && t'.invitations == t.invitations - {op.invitation}
    ensures PassesGate(t, t.invitations[op.invitation].org, op.user)
    ensures var i := t.invitations[op.invitation];
      && (exists m :: m in t'.memberships && t'.memberships[m].user == op.user && t'.memberships[m].org == i.org && t'.memberships[m].subject == i.subject)
      && (i.subject.RoleSubject? && Grants(t') != Grants(t) ==> i.subject.role in t.roles && t.roles[i.subject.role].org == i.org)
      && Grants(t) <= Grants(t') <= Grants(t) + {Grant(Membership(op.user, i.org, i.subject, ""), Human)}
  {
    hide Consistent, Grants, Withdrawn, PassesGate;
    var i := t.invitations[op.invitation];
    GateIsRaw(t, i.org, op.user);
    AccessWriteConsistent(t, op);
    if !HasSubject(t.memberships, i.org, op.user, i.subject) {
      assert t'.memberships[t.nextId] == Membership(op.user, i.org, i.subject, "");
    }
  }

  /** A human's grant is that grant, a replacement leaves exactly what was asked for, a removal takes one membership. */
  lemma HumanChangesGrants(t: Tables, op: AccessOp, t': Tables, g: Grant)
    requires Consistent(t) && AccessCommits(t, op, t')
    ensures op.GrantByHuman? ==> (g in Grants(t') <==> g in Grants(t) || g == Grant(Membership(op.user, op.org, op.subject, op.scope), Human))
    ensures op.ReplaceByHuman? && (g.membership.org != op.org || g.membership.user != op.user) ==> (g in Grants(t') <==> g in Grants(t))
    ensures op.ReplaceByHuman? && g.membership.org == op.org && g.membership.user == op.user ==>
      (g in Grants(t') <==> g.owner == Human && (g.membership.subject, g.membership.scope) in op.requests)
    ensures op.RemoveByHuman? ==>
      && op.membership in t.memberships && t'.memberships == t.memberships - {op.membership}
      && (g in Grants(t') <==> g in Grants(t) && g.membership != t.memberships[op.membership])
  {
    hide Consistent, Grants, AccessOpAllowed, InsertAll;
    AccessWriteConsistent(t, op);
    if op.ReplaceByHuman? && g.owner == Human && g.membership.org == op.org && g.membership.user == op.user {
      var r := (g.membership.subject, g.membership.scope);
      assert RequestedMembership(op.org, op.user, r) == g.membership;
    }
    if op.RemoveByHuman? {
      RemovedGrant(t, op.membership, g);
    }
  }

  lemma RemovedGrant(t: Tables, id: Id, g: Grant)
    requires Consistent(t) && AccessOpAllowed(t, RemoveByHuman(id))
    ensures id in t.memberships && (g in Grants(t) ==> (g in GrantsOf(t, {id}) <==> g.membership == t.memberships[id]))
  {
    ConsistentUnique(t);
    hide Consistent;
    if g in Grants(t) && g.membership == t.memberships[id] {
      var m :| m in t.memberships && g == Grant(t.memberships[m], OwnerOf(t.managed, m));
      assert m == id;
    }
  }

  /** A role subject names a role of the organization. */
  predicate OwnRole(t: Tables, org: string, subject: Subject) {
    subject.RoleSubject? ==> subject.role in t.roles && t.roles[subject.role].org == org
  }

  predicate HoldsSubject(t: Tables, org: string, user: Id, subject: Subject) {
    exists m :: m in t.memberships && t.memberships[m].org == org && t.memberships[m].user == user && t.memberships[m].subject == subject
  }

  /** When a redemption, a grant, a replacement or a removal goes through: neither more nor less than this is asked. */
  lemma ChangesAllowedIff(t: Tables, op: AccessOp)
    requires !op.Login?
    ensures AccessOpAllowed(t, op) <==>
      match op
      case Redeem(invitation, user) =>
        && invitation in t.invitations && user in t.users && PassesGate(t, t.invitations[invitation].org, user)
        && (HoldsSubject(t, t.invitations[invitation].org, user, t.invitations[invitation].subject)
            || OwnRole(t, t.invitations[invitation].org, t.invitations[invitation].subject))
      case GrantByHuman(org, user, subject, scope) =>
        && user in t.users && OwnRole(t, org, subject)
        && forall m :: m in t.memberships ==> t.memberships[m] != Membership(user, org, subject, scope)
      case ReplaceByHuman(org, user, requests) =>
        && (exists m :: m in t.memberships && t.memberships[m].org == org && t.memberships[m].user == user)
        && (forall i, j :: 0 <= i < j < |requests| ==> requests[i] != requests[j])
        && (forall i :: 0 <= i < |requests| ==> OwnRole(t, org, requests[i].0))
      case RemoveByHuman(membership) => membership in t.memberships
  {
    hide Withdrawn, PassesGate;
    match op {
      case Redeem(invitation, user) =>
        if invitation in t.invitations {
          GateIsRaw(t, t.invitations[invitation].org, user);
        }
      case GrantByHuman(org, user, subject, scope) =>
        var m := Membership(user, org, subject, scope);
        if id :| id in t.memberships && t.memberships[id] == m {
          assert m in t.memberships.Values;
        }
      case ReplaceByHuman(org, user, requests) =>
        assert forall i :: 0 <= i < |requests| ==> requests[i] in requests;
      case _ =>
    }
  }
}
