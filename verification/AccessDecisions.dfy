/**
 * From the membership tables to the decision: what a policy loaded from them
 * lets a user do, and what logins and withdrawals therefore change.
 */
module AccessDecisions {
  import opened Common
  import opened Resources
  import opened Decision
  import opened DecisionTheorems
  import opened PermissionTheorems
  import opened ScimTables
  import opened ScimOperations
  import opened AccessOperations
  import opened ReconcileTheorems
  import opened ReloadTheorems
  import LoginTheorems
  import DirectoryTheorems
  import ProvisioningTheorems

  /** Ids are written as uuids, permissions without dollar signs, and no service user is a user. */
  ghost predicate ClearView(view: View) {
    && Faithful(view)
    && (forall i :: IsUuidText(view.text(i)))
    && (forall i, p :: p in view.permissions(i) ==> '$' !in p)
    && (forall b :: b in view.services ==> IsUuidText(b.subject) && IsUuidText(b.role) && forall i :: b.subject != view.text(i))
  }

  /** The membership's scope, or its organization, is the resource or above it. */
  predicate Reaches(h: Hierarchy, view: View, m: Membership, r: Resource) {
    match view.scope(m.scope)
    case None => AtOrBelow(h, r, Resource(Organization, m.org))
    case Some(scope) => AtOrBelow(h, r, scope)
  }

  /** This membership's role, stored and of its organization, has a permission that gives the action on the resource. */
  predicate MembershipAllows(catalog: Catalog, t: Tables, view: View, h: Hierarchy, m: Membership, r: Resource, action: string) {
    && m.subject.RoleSubject? && m.subject.role in t.roles && t.roles[m.subject.role].org == m.org
    && Reaches(h, view, m, r) && exists p :: p in view.permissions(m.subject.role) && PermissionTheorems.Gives(catalog, p, action)
  }

  lemma ViewIsClear(t: Tables, view: View, h: Hierarchy)
    requires ClearView(view)
    ensures ClearDatabase(AsDatabase(t, view, h)) && UniqueRoleIds(AsDatabase(t, view, h))
  {
    hide IsUuidText;
  }

  lemma RoleIsItself(t: Tables, view: View, h: Hierarchy, org: string, role: Id)
    requires Faithful(view)
    ensures var roles := AsDatabase(t, view, h).roles; var k := (org, view.text(role));
      && (k in roles <==> role in t.roles && t.roles[role].org == org)
      && (k in roles ==> roles[k] == view.permissions(role))
  {
    var roles := AsDatabase(t, view, h).roles;
    var k := (org, view.text(role));
    if k in roles {
      var id :| id in t.roles && k == (t.roles[id].org, view.text(id));
      assert id == role;
    }
  }

  lemma MembershipOfBinding(t: Tables, view: View, h: Hierarchy, user: Id, b: Binding) returns (m: Membership)
    requires ClearView(view) && b in AsDatabase(t, view, h).bindings && b.subject == view.text(user)
    ensures m in t.memberships.Values && m.subject.RoleSubject? && m.user == user && b == BindingOf(m, view)
  {
    hide IsUuidText;
    m :| m in t.memberships.Values && m.subject.RoleSubject? && b == BindingOf(m, view);
  }

  lemma BindingOfMembership(t: Tables, view: View, h: Hierarchy, m: Membership)
    requires Faithful(view) && m in t.memberships.Values && m.subject.RoleSubject?
    ensures BindingOf(m, view) in AsDatabase(t, view, h).bindings && AsDatabase(t, view, h).hierarchy == h
  {
  }

  lemma AllowsByMembership(
      catalog: Catalog, t: Tables, view: View, h: Hierarchy, m: Membership, p: string, r: Resource, action: string)
    requires Faithful(view) && m in t.memberships.Values && m.subject.RoleSubject?
    ensures Allows(catalog, AsDatabase(t, view, h), BindingOf(m, view), p, r, action) <==>
      && m.subject.role in t.roles && t.roles[m.subject.role].org == m.org && p in view.permissions(m.subject.role)
      && Reaches(h, view, m, r) && PermissionTheorems.Gives(catalog, p, action)
  {
    BindingOfMembership(t, view, h, m);
    RoleIsItself(t, view, h, m.org, m.subject.role);
    hide AsDatabase, Faithful, Gives, AtOrBelow;
  }

  /** A user may do exactly what some membership of theirs allows. */
  lemma UserIsAllowedIff(catalog: Catalog, t: Tables, view: View, h: Hierarchy, user: Id, r: Resource, action: string)
    requires ClearView(view) && Typed(h) && Closed(h)
    ensures Enforce(catalog, LoadedFacts(AsDatabase(t, view, h)), view.text(user), r, action)
      <==> exists g :: g in Grants(t) && g.membership.user == user && MembershipAllows(catalog, t, view, h, g.membership, r, action)
  {
    hide Enforce, Typed, Grants, Gives, Reaches, ClearDatabase, UniqueRoleIds, LoadedFacts, Allows, IsUuidText, AsDatabase;
    var db := AsDatabase(t, view, h);
    ViewIsClear(t, view, h);
    SameHierarchy(t, view, h);
    AllowedExactly(catalog, db, view.text(user), r, action);
    if b: Binding, p :| b.subject == view.text(user) && Allows(catalog, db, b, p, r, action) {
      AllowsStored(catalog, db, b, p, r, action);
      var m := MembershipOfBinding(t, view, h, user, b);
      StoredIffGranted(t, m);
      AllowsByMembership(catalog, t, view, h, m, p, r, action);
      assert MembershipAllows(catalog, t, view, h, m, r, action);
    }
    if g :| g in Grants(t) && g.membership.user == user && MembershipAllows(catalog, t, view, h, g.membership, r, action) {
      var m := g.membership;
      StoredIffGranted(t, m);
      var p :| p in view.permissions(m.subject.role) && PermissionTheorems.Gives(catalog, p, action);
      AllowsByMembership(catalog, t, view, h, m, p, r, action);
      assert BindingOf(m, view).subject == view.text(user);
    }
  }

  lemma AllowsStored(catalog: Catalog, db: Database, b: Binding, p: string, r: Resource, action: string)
    requires Allows(catalog, db, b, p, r, action)
    ensures b in db.bindings
  {
  }

  /** After a deactivation or deletion a policy read from the tables allows the user nothing by this organization's memberships. */
  lemma WithdrawnAreRefused(
      catalog: Catalog, t: Tables, op: UserOp, t': Tables, viewer: Id, view: View, h: Hierarchy, r: Resource, action: string)
    requires Consistent(t) && UserCommits(t, op, t', viewer) && ClearView(view) && Typed(h) && Closed(h)
    requires op.Delete? || (op.Update? && op.existing.active && !op.updated.active)
    requires Enforce(catalog, LoadedFacts(AsDatabase(t', view, h)), view.text(op.existing.user), r, action)
    ensures exists g :: g in Grants(t) && g.membership.user == op.existing.user && g.membership.org != op.existing.org
                        && MembershipAllows(catalog, t', view, h, g.membership, r, action)
  {
    hide Consistent, UserCommits, Grants, Enforce, MembershipAllows, Typed, LoadedFacts, AsDatabase;
    UserIsAllowedIff(catalog, t', view, h, op.existing.user, r, action);
    ProvisioningTheorems.WithdrawalTakes(t, op, t', viewer);
  }

  /** The built-in roles of the organization permit what they were seeded with. */
  ghost predicate BuiltinsPermit(t: Tables, view: View, org: string) {
    forall role :: role in t.roles ==>
      && (t.roles[role] == Role(org, "Viewer") ==> view.permissions(role) == {"read_all"})
      && (t.roles[role] == Role(org, "Admin") ==> view.permissions(role) == {"manage_all"})
  }

  /**
   * Somebody who had no membership anywhere logs in: they may now do what read_all
   * gives, at and below the organization and nowhere else; the very first member
   * may do everything there.
   */
  lemma FirstLoginAllows(
      catalog: Catalog, t: Tables, op: AccessOp, t': Tables, view: View, h: Hierarchy, r: Resource, action: string)
    requires Consistent(t) && op.Login? && AccessCommits(t, op, t') && ClearView(view) && Typed(h) && Closed(h)
    requires BuiltinsPermit(t', view, op.org) && view.scope("") == None && forall g :: g in Grants(t) ==> g.membership.user != op.user
    ensures Enforce(catalog, LoadedFacts(AsDatabase(t', view, h)), view.text(op.user), r, action)
      <==> AtOrBelow(h, r, Resource(Organization, op.org))
           && PermissionTheorems.Gives(catalog, if LoginTheorems.HasMember(t, op.org) then "read_all" else "manage_all", action)
  {
    hide Consistent, AccessCommits, Grants, Enforce, Typed, LoadedFacts, AsDatabase, ClearView, Gives, AtOrBelow;
    LoginTheorems.FirstGrant(t, op, t');
    NoRoleYet(t, op.org, op.user);
    UserIsAllowedIff(catalog, t', view, h, op.user, r, action);
    var g :| g in Grants(t') - Grants(t);
    var name := if LoginTheorems.HasMember(t, op.org) then "Viewer" else "Admin";
    assert LoginTheorems.GrantsNamed(t', g, op.org, op.user, name);
    assert view.permissions(g.membership.subject.role) == {if LoginTheorems.HasMember(t, op.org) then "read_all" else "manage_all"};
    forall k | k in Grants(t') && k.membership.user == op.user ensures k == g {
      assert k in Grants(t') - Grants(t);
    }
  }

  lemma NoRoleYet(t: Tables, org: string, user: Id)
    requires forall g :: g in Grants(t) ==> g.membership.user != user
    ensures !LoginTheorems.HasRole(t, org, user)
  {
    if LoginTheorems.HasRole(t, org, user) {
      var m :| m in t.memberships && t.memberships[m].org == org && t.memberships[m].user == user && t.memberships[m].subject.RoleSubject?;
      GrantIsStored(t, m);
    }
  }

  lemma GrantIsStored(t: Tables, m: Id)
    requires m in t.memberships
    ensures GrantOf(t, m) in Grants(t)
  {
  }

  /** Members of a mapped group may do what the mapped role permits, at and below their organization, as soon as they are in view. */
  lemma MappedMembersMay(
      catalog: Catalog, t: Tables, view: View, h: Hierarchy, id: Id, role: Id, p: string, r: Resource, action: string)
    requires Consistent(t) && DirectoryTheorems.LowerKeys(t.mappings) && ClearView(view) && Typed(h) && Closed(h) && view.scope("") == None
    requires id in t.rows && InView(t, id) && DirectoryTheorems.MappedTo(t, id, role)
    requires role in t.roles && t.roles[role].org == t.rows[id].org && p in view.permissions(role)
    requires AtOrBelow(h, r, Resource(Organization, t.rows[id].org)) && PermissionTheorems.Gives(catalog, p, action)
    ensures Enforce(catalog, LoadedFacts(AsDatabase(t, view, h)), view.text(t.rows[id].user), r, action)
  {
    hide Consistent, InView, Enforce, Typed, LoadedFacts, AsDatabase, ClearView, Gives, AtOrBelow, Grants;
    hide DirectoryTheorems.LowerKeys, DirectoryTheorems.MappedTo;
    DirectoryTheorems.ViewMeans(t, id);
    var m :| m in t.memberships && t.memberships[m] == Membership(t.rows[id].user, t.rows[id].org, RoleSubject(role), "");
    GrantIsStored(t, m);
    assert MembershipAllows(catalog, t, view, h, t.memberships[m], r, action);
    UserIsAllowedIff(catalog, t, view, h, t.rows[id].user, r, action);
  }
}
