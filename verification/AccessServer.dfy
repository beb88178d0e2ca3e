/**
 * The transactions that give or take memberships outside SCIM, as the server
 * runs them on its copy of the tables.
 */
module AccessServer {
  import opened Common
  import opened ScimTables
  import opened ScimReconcile
  import opened ScimOperations
  import opened AccessOperations
  import opened ScimServer

  // ------------------------------------------------------------- the governance gate

  predicate Deprovisioned(row: ScimRow) {
    row.deleted || !row.active
  }

  /** The live row if there is one, otherwise the most recent tombstone. */
  method FindScimUserForOrg(t: Tables, org: string, user: Id) returns (r: Option<ScimRow>)
    requires UniqueLiveRows(t.rows)
    ensures r.None? <==> !Governed(t.rows, org, user)
    ensures r.Some? ==> (Deprovisioned(r.value) <==> Withdrawn(t.rows, org, user))
  {
    hide UniqueLiveRows;
    var found := Rows(set id: Id | id in t.rows && IsRowOf(t.rows[id], org, user));
    if |found| == 0 {
      assert forall id :: id in t.rows && IsRowOf(t.rows[id], org, user) ==> id in found;
      return None;
    }
    assert found[0] in found;
    var best := found[0];
    for i := 1 to |found|
      invariant best in found
      invariant forall k :: 0 <= k < i && Live(t.rows, found[k]) ==> found[k] == best
    {
      assert found[i] in found;
      var row, chosen := t.rows[found[i]], t.rows[best];
      forall k | 0 <= k < i && Live(t.rows, found[k]) && Live(t.rows, found[i]) ensures found[k] == found[i] {
        assert found[k] in found;
        SameUserSameRow(t.rows, found[k], found[i]);
      }
      if chosen.deleted && (!row.deleted || row.updatedAt > chosen.updatedAt) {
        best := found[i];
      } else if !row.deleted && !chosen.deleted {
        SameUserSameRow(t.rows, best, found[i]);
      }
    }
    GateReadsGovernance(t.rows, org, user, found, best);
    r := Some(t.rows[best]);
  }

  lemma SameUserSameRow(rows: map<Id, ScimRow>, i: Id, j: Id)
    requires UniqueLiveRows(rows) && Live(rows, i) && Live(rows, j)
    requires rows[i].org == rows[j].org && rows[i].user == rows[j].user
    ensures i == j
  {
    assert SameLiveUser(rows[i], rows[j]);
  }

  lemma GateReadsGovernance(rows: map<Id, ScimRow>, org: string, user: Id, found: seq<Id>, best: Id)
    requires best in found && forall id :: id in found <==> id in rows && IsRowOf(rows[id], org, user)
    requires forall k :: 0 <= k < |found| && Live(rows, found[k]) ==> found[k] == best
    ensures Deprovisioned(rows[best]) <==> Withdrawn(rows, org, user)
    ensures Governed(rows, org, user)
  {
    assert IsRowOf(rows[best], org, user);
    if HasActiveRow(rows, org, user) {
      var id :| id in rows && Active(rows, id) && IsRowOf(rows[id], org, user);
      assert id in found;
    }
  }

  // ------------------------------------------------------------------- SSO callback

  /** The user the assertion stands for, unless this organization's IDP withdrew them. */
  method ResolveLogin(t: Tables, org: string, key: string, email: string) returns (r: Result<Id, Failure>)
    requires UniqueLiveRows(t.rows)
    ensures r.Ok? ==> LoginResolves(t, org, key, email, r.value)
    ensures r.Err? ==> forall user :: !LoginResolves(t, org, key, email, user)
  {
    hide Withdrawn, UniqueLiveRows, HasEmail;
    var identity := Identity(SsoIdentity, key);
    if identity in t.identities {
      var user := t.identities[identity];
      var governance := FindScimUserForOrg(t, org, user);
      assert governance.None? ==> !Withdrawn(t.rows, org, user) by { hide *; UngovernedNotWithdrawn(t.rows, org, user); }
      r := if governance.Some? && Deprovisioned(governance.value) then Err(WithdrawnByScim) else Ok(user);
      return;
    }
    var matches := Rows(GovernedMatches(t, org, email));
    var user: Option<Id> := None;
    for i := 0 to |matches|
      invariant user.None? <==> i == 0
      invariant user.Some? ==> i == 1 && user.value == matches[0] && !Withdrawn(t.rows, org, user.value)
    {
      var candidate := matches[i];
      assert candidate in matches;
      var governance := FindScimUserForOrg(t, org, candidate);
      MatchesAreGoverned(t, org, email, candidate);
      if governance.Some? && Deprovisioned(governance.value) {
        NobodyLogsIn(t, org, key, email, matches, candidate);
        return Err(WithdrawnByScim);
      }
      if user.Some? && user.value != candidate {
        TwoMatches(t, org, key, email, user.value, candidate);
        return Err(AmbiguousEmail);
      }
      user := Some(candidate);
    }
    if user.Some? {
      OneRow(matches, GovernedMatches(t, org, email));
      r := Ok(user.value);
    } else {
      assert forall u :: u in GovernedMatches(t, org, email) ==> u in matches;
      r := Ok(t.nextId);
    }
  }

  lemma UngovernedNotWithdrawn(rows: map<Id, ScimRow>, org: string, user: Id)
    ensures !Governed(rows, org, user) ==> !Withdrawn(rows, org, user)
  {
  }

  lemma MatchesAreGoverned(t: Tables, org: string, email: string, user: Id)
    requires user in GovernedMatches(t, org, email)
    ensures Governed(t.rows, org, user)
  {
    var id :| id in t.rows && t.rows[id].org == org && t.rows[id].user == user;
    assert IsRowOf(t.rows[id], org, user);
  }

  lemma NobodyLogsIn(t: Tables, org: string, key: string, email: string, matches: seq<Id>, candidate: Id)
    requires Identity(SsoIdentity, key) !in t.identities && candidate in GovernedMatches(t, org, email)
    requires Withdrawn(t.rows, org, candidate)
    ensures forall user: Id :: !LoginResolves(t, org, key, email, user)
  {
    forall user: Id ensures !LoginResolves(t, org, key, email, user) {
      assert candidate in {user} ==> user == candidate;
    }
  }

  lemma TwoMatches(t: Tables, org: string, key: string, email: string, a: Id, b: Id)
    requires Identity(SsoIdentity, key) !in t.identities && a != b
    requires a in GovernedMatches(t, org, email) && b in GovernedMatches(t, org, email)
    ensures forall user: Id :: !LoginResolves(t, org, key, email, user)
  {
    forall user: Id ensures !LoginResolves(t, org, key, email, user) {
      assert !(a in {user} && b in {user});
    }
  }

  method FindRole(roles: map<Id, Role>, org: string, name: string) returns (r: Option<Id>)
    ensures r.Some? ==> r.value in roles && roles[r.value] == Role(org, name)
    ensures r.None? ==> forall id :: id in roles ==> roles[id] != Role(org, name)
  {
    var ids := Rows(roles.Keys);
    r := None;
    for i := 0 to |ids|
      invariant forall k :: 0 <= k < i ==> roles[ids[k]] != Role(org, name)
    {
      assert ids[i] in ids;
      if roles[ids[i]] == Role(org, name) {
        return Some(ids[i]);
      }
    }
    forall id | id in roles ensures roles[id] != Role(org, name) {
      assert id in ids;
    }
  }

  /** A user without a role becomes Viewer, or Admin of an organization without members. */
  method CreateFirstMembership(t0: Tables, org: string, user: Id) returns (r: Result<Tables, Failure>, role: Id)
    ensures r.Ok? ==> LoginRole(t0, org, user, role) && r.value == LoginMembership(t0, org, user, role)
    ensures r.Err? ==> forall role :: !LoginRole(t0, org, user, role)
    ensures r.Ok? && !HasRoleMembership(t0.memberships, org, user) ==>
      role in r.value.roles
      && r.value.roles[role] == Role(org, if exists m :: m in t0.memberships && t0.memberships[m].org == org then "Viewer" else "Admin")
  {
    hide HasRoleMembership, ListedOrSeeded, InsertMembership;
    SeedingKeepsMemberships(t0, org);
    role := 0;
    if HasRoleMembership(t0.memberships, org, user) {
      return Ok(t0), role;
    }
    var t := ListedOrSeeded(t0, org);
    var target := if HasMemberships(t.memberships, org) then VIEWER else ADMIN;
    var found := FindRole(t.roles, org, target);
    if found.None? {
      return Err(NoSuchBuiltinRole), role;
    }
    role := found.value;
    InsertingKeepsRoles(t, Membership(user, org, RoleSubject(role), ""));
    r := Ok(InsertMembership(t, Membership(user, org, RoleSubject(role), ""), Human));
  }

  lemma InsertingKeepsRoles(t: Tables, m: Membership)
    ensures InsertMembership(t, m, Human).roles == t.roles
  {
  }

  lemma SeedingKeepsMemberships(t: Tables, org: string)
    ensures ListedOrSeeded(t, org).memberships == t.memberships
  {
    hide HasRoles, WithBuiltins;
    var w := ListedOrSeeded(t, org);
    if w != t {
      assert w == t.(roles := WithBuiltins(t.roles, org, t.nextId), nextId := t.nextId + 3);
    }
  }

  /** The login, a first membership where the user has no role yet, and a session. */
  method GetSsoCallback(t0: Tables, org: string, key: string, email: string)
    returns (r: Result<Tables, Failure>, reload: Reload, ghost op: AccessOp)
    requires Consistent(t0)
    ensures op.Login? && op.org == org && op.key == key && op.email == email
    ensures r.Ok? ==> AccessCommits(t0, op, r.value)
    ensures r.Err? ==> forall user, role :: !AccessOpAllowed(t0, Login(org, key, email, user, role))
    ensures r.Ok? ==> reload == if AccessAdds(t0, op) != {} then Synchronous else NoReload
  {
    hide Consistent, LoginResolves, HasRoleMembership, LoginRole, LoginMembership;
    ConsistentUnique(t0);
    reload, op := NoReload, Login(org, key, email, 0, 0);
    var resolved := ResolveLogin(t0, org, key, email);
    if resolved.Err? {
      return Err(resolved.error), reload, op;
    }
    var user := resolved.value;
    LoginResolvesToOne(t0, org, key, email, user);
    var t := LoginUser(t0, key, email, user);
    var createMembership := !HasRoleMembership(t.memberships, org, user);
    var role;
    r, role := CreateFirstMembership(t, org, user);
    if r.Err? {
      return;
    }
    op := Login(org, key, email, user, role);
    reload := if createMembership then Synchronous else NoReload;
    r := Ok(WithSession(r.value, user));
  }

  lemma LoginResolvesToOne(t: Tables, org: string, key: string, email: string, user: Id)
    requires LoginResolves(t, org, key, email, user)
    ensures forall u: Id :: LoginResolves(t, org, key, email, u) ==> u == user
  {
    forall u: Id | LoginResolves(t, org, key, email, u) ensures u == user {
      if Identity(SsoIdentity, key) !in t.identities && GovernedMatches(t, org, email) != {} {
        assert user in GovernedMatches(t, org, email) && user in {u};
      }
    }
  }

  // ------------------------------------------------------------------- invitations

  method RedeemInvitation(t0: Tables, org: string, invitation: Id, user: Id) returns (r: Result<Tables, Failure>)
    requires Consistent(t0) && user in t0.users
    ensures r.Ok? ==> invitation in t0.invitations && t0.invitations[invitation].org == org
    ensures r.Ok? ==> AccessCommits(t0, Redeem(invitation, user), r.value)
    ensures r == Err(NotFound) <==> !(invitation in t0.invitations && t0.invitations[invitation].org == org)
    ensures r.Err? && r.error != NotFound ==> !AccessOpAllowed(t0, Redeem(invitation, user))
  {
    hide Consistent, Withdrawn, HasSubject;
    ConsistentUnique(t0);
    if !(invitation in t0.invitations && t0.invitations[invitation].org == org) {
      return Err(NotFound);
    }
    var invite := t0.invitations[invitation];
    var governance := FindScimUserForOrg(t0, org, user);
    UngovernedNotWithdrawn(t0.rows, org, user);
    if governance.Some? && Deprovisioned(governance.value) {
      return Err(WithdrawnByScim);
    }
    var t := t0;
    if !HasSubject(t.memberships, org, user, invite.subject) {
      if !RoleOfOrg(t.roles, org, invite.subject) {
        return Err(RoleNotFound);
      }
      t := InsertMembership(t, Membership(user, org, invite.subject, ""), Human);
    }
    t := t.(invitations := t.invitations - {invitation});
    r := Ok(t);
  }

  // ------------------------------------------------------------------ human changes

  method CreateOrgMembership(t0: Tables, org: string, user: Id, subject: Subject, scope: string) returns (r: Result<Tables, Failure>)
    requires Consistent(t0)
    ensures r.Ok? ==> AccessCommits(t0, GrantByHuman(org, user, subject, scope), r.value)
    ensures r.Err? <==> !AccessOpAllowed(t0, GrantByHuman(org, user, subject, scope))
  {
    if user !in t0.users {
      return Err(NotFound);
    }
    if !RoleOfOrg(t0.roles, org, subject) {
      return Err(RoleNotFound);
    }
    var m := Membership(user, org, subject, scope);
    if m in t0.memberships.Values {
      return Err(DuplicateMembership);
    }
    r := Ok(InsertMembership(t0, m, Human));
  }

  /** Every membership of the user in the organization makes way for the requested ones. */
  method ReplaceOrgUserMemberships(t0: Tables, org: string, user: Id, requests: seq<(Subject, string)>) returns (r: Result<Tables, Failure>)
    requires Consistent(t0)
    ensures r.Ok? ==> AccessCommits(t0, ReplaceByHuman(org, user, requests), r.value)
    ensures r.Err? <==> !AccessOpAllowed(t0, ReplaceByHuman(org, user, requests))
  {
    hide Consistent, HasMembership;
    if !HasMembership(t0.memberships, org, user) {
      return Err(NotFound);
    }
    var t := DeleteMemberships(t0, MembershipIdsOf(t0.memberships, org, user));
    ghost var emptied := t;
    UserOfMembership(t0, org, user);
    DeleteMembershipsConsistent(t0, MembershipIdsOf(t0.memberships, org, user));
    AllDeleted(t0, org, user);
    assert requests[..0] == [];
    for i := 0 to |requests|
      invariant Distinct(requests[..i]) && forall q :: q in requests[..i] ==> RoleOfOrg(t0.roles, org, q.0)
      invariant t == InsertAll(emptied, org, user, requests[..i])
    {
      var request := requests[i];
      assert requests[..i + 1] == requests[..i] + [request] && requests[i] in requests;
      InsertedSoFar(emptied, org, user, requests[..i], request);
      if !RoleOfOrg(t.roles, org, request.0) {
        return Err(RoleNotFound);
      }
      if RequestedMembership(org, user, request) in t.memberships.Values {
        RepeatedRequest(requests, i);
        return Err(DuplicateMembership);
      }
      t := InsertMembership(t, RequestedMembership(org, user, request), Human);
    }
    assert requests[..|requests|] == requests;
    r := Ok(t);
  }

  lemma AllDeleted(t: Tables, org: string, user: Id)
    ensures !HasMembership(DeleteMemberships(t, MembershipIdsOf(t.memberships, org, user)).memberships, org, user)
    ensures DeleteMemberships(t, MembershipIdsOf(t.memberships, org, user)).roles == t.roles
    ensures DeleteMemberships(t, MembershipIdsOf(t.memberships, org, user)).users == t.users
  {
  }

  lemma InsertedSoFar(t: Tables, org: string, user: Id, done: seq<(Subject, string)>, request: (Subject, string))
    requires Consistent(t) && user in t.users && !HasMembership(t.memberships, org, user) && Distinct(done)
    ensures var t' := InsertAll(t, org, user, done);
      t'.roles == t.roles && (RequestedMembership(org, user, request) in t'.memberships.Values <==> request in done)
  {
    hide Consistent, Grants;
    InsertAllConsistent(t, org, user, done);
    var t' := InsertAll(t, org, user, done);
    if request in done {
      HeldIsStored(t', RequestedMembership(org, user, request));
      assert Grant(RequestedMembership(org, user, request), Human) in Grants(t');
    }
  }

  lemma RepeatedRequest<T>(q: seq<T>, i: nat)
    requires i < |q| && q[i] in q[..i]
    ensures !Distinct(q)
  {
    var k :| 0 <= k < i && q[k] == q[i];
  }

  function SameSubject(t: Tables, m: Membership): set<Id> {
    set k | k in t.memberships && t.memberships[k].org == m.org && t.memberships[k].subject == m.subject
  }

  /** Is this the only membership with its subject in the organization? */
  method IsOnlyOne(t: Tables, membership: Id) returns (only: bool)
    requires membership in t.memberships
    ensures only <==> SameSubject(t, t.memberships[membership]) == {membership}
  {
    var m := t.memberships[membership];
    var page := Rows(SameSubject(t, m));
    assert membership in page;
    only := |page| == 1 && page[0] == membership;
    if |page| == 1 {
      OneRow(page, SameSubject(t, m));
    } else {
      assert page[0] in page && page[1] in page && page[0] != page[1];
    }
  }

  lemma OthersRemain(t: Tables, membership: Id)
    requires membership in t.memberships
    ensures var m := t.memberships[membership];
      SameSubject(t, m) != {membership}
      <==> exists k :: k in t.memberships && k != membership && t.memberships[k].org == m.org && t.memberships[k].subject == m.subject
  {
    var m := t.memberships[membership];
    assert membership in SameSubject(t, m);
    if SameSubject(t, m) != {membership} {
      var other :| other in SameSubject(t, m) && other != membership;
    }
    if k :| k in t.memberships && k != membership && t.memberships[k].org == m.org && t.memberships[k].subject == m.subject {
      assert k in SameSubject(t, m);
    }
  }

  /** A human deletes one membership, but never the last one with the Admin role: then, and only then, it stays. */
  method DeleteOrgMembership(t0: Tables, org: string, membership: Id) returns (r: Result<Tables, Failure>)
    requires Consistent(t0)
    ensures r.Ok? ==> AccessCommits(t0, RemoveByHuman(membership), r.value) && t0.memberships[membership].org == org
    ensures r == Err(NotFound) <==> !(membership in t0.memberships && t0.memberships[membership].org == org)
    ensures r == Err(LastAdmin) <==>
      && membership in t0.memberships && t0.memberships[membership].org == org
      && (exists role :: role in t0.roles && t0.roles[role] == Role(org, "Admin") && t0.memberships[membership].subject == RoleSubject(role))
      && (forall k :: k in t0.memberships && k != membership ==>
            !(t0.memberships[k].org == org && t0.memberships[k].subject == t0.memberships[membership].subject))
    ensures r.Ok? ==> forall role :: role in t0.roles && t0.roles[role] == Role(org, "Admin") && t0.memberships[membership].subject == RoleSubject(role) ==>
      exists k :: k in r.value.memberships && r.value.memberships[k].org == org && r.value.memberships[k].subject == RoleSubject(role)
  {
    hide Consistent, SameSubject;
    if !(membership in t0.memberships && t0.memberships[membership].org == org) {
      return Err(NotFound);
    }
    var m := t0.memberships[membership];
    if m.subject.RoleSubject? {
      if !(m.subject.role in t0.roles && t0.roles[m.subject.role].org == org) {
        return Err(RoleNotFound);
      }
      if t0.roles[m.subject.role].name == ADMIN {
        var only := IsOnlyOne(t0, membership);
        OthersRemain(t0, membership);
        if only {
          return Err(LastAdmin);
        }
        ghost var k :| k in t0.memberships && k != membership && t0.memberships[k].org == m.org && t0.memberships[k].subject == m.subject;
        assert k in DeleteMemberships(t0, {membership}).memberships;
      }
    }
    r := Ok(DeleteMemberships(t0, {membership}));
  }
}
