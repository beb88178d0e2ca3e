/**
 * Which permissions give which: the closed table of what every grant allows, and
 * what follows for Casbin's decisions over whole databases.
 */
module PermissionTheorems {
  import opened Common
  import opened Resources
  import opened Decision
  import opened DecisionTheorems
  import opened Authorizer

  // ----------------------------------------------------------- what each grant allows

  /** A catalogued permission of this level that takes part in the level hierarchy under its own name. */
  predicate Ordinary(catalog: Catalog, request: string, level: Level) {
    && request in catalog && catalog[request] == level
    && request !in {"read", "write", "manage", "member", "provisioning_read", "provisioning_write"}
  }

  /** The whole table: the requests each grant allows. */
  predicate Gives(catalog: Catalog, granted: string, request: string) {
    if granted == "manage_all" then true
    else if granted == "write_all" then
      request in {"write_all", "write", "read", "member"} || Ordinary(catalog, request, Write) || Ordinary(catalog, request, Read)
    else if granted == "read_all" then request in {"read_all", "read", "member"} || Ordinary(catalog, request, Read)
    else if granted == "manage" then request == "manage" || Ordinary(catalog, request, Manage)
    else if granted == "write" then request == "write" || Ordinary(catalog, request, Write)
    else if granted == "read" then request in {"read", "member"} || Ordinary(catalog, request, Read)
    else if granted == "module_read" then request in {"module_read", "module.read", "module.version.read"}
    else if granted == "module_write" then
      request in {"module_write", "module.version.publish", "module.version.promote", "module.archive"}
    else if granted == "member" then false
    else request == granted
  }

  /** The matcher allows exactly what the table says, for every catalogue, grant and request. */
  lemma MatchesExactly(catalog: Catalog, granted: string, request: string)
    ensures PermissionMatch(catalog, request, granted) <==> Gives(catalog, granted, request)
  {
    hide Normalized;
    if request == "member" {
      assert Normalized(request) == "read" by { NormalizedIs(request); }
    } else {
      assert Normalized(request) == request by { NormalizedIs(request); }
    }
  }

  lemma NormalizedIs(request: string)
    ensures Normalized(request) == if request == "member" then "read" else request
  {
  }

  /** One of the grants that name a level gives the request. */
  predicate GivenByALevel(catalog: Catalog, request: string) {
    exists granted | granted in {"read", "write", "manage", "read_all", "write_all"} :: PermissionMatch(catalog, request, granted)
  }

  /** A custom permission is one that no grant of a whole level can give. */
  lemma CustomIffOutsideTheLevels(catalog: Catalog, request: string)
    requires request !in {"member", "provisioning_read", "provisioning_write", "manage_all"}
    ensures IsCustomPermission(catalog, request) <==> !GivenByALevel(catalog, request)
  {
    hide PermissionMatch;
    forall granted | granted in {"read", "write", "manage", "read_all", "write_all"}
      ensures PermissionMatch(catalog, request, granted) <==> Gives(catalog, granted, request)
    {
      MatchesExactly(catalog, granted, request);
    }
    if request in {"read", "write", "manage", "read_all", "write_all"} {
      assert PermissionMatch(catalog, request, request);
    } else if request in catalog {
      var level := match catalog[request] case Read => "read" case Write => "write" case Manage => "manage";
      assert Gives(catalog, level, request) && PermissionMatch(catalog, request, level);
    }
  }

  // --------------------------------------------------- what the tables allow in the end

  /** The binding's scope: its resource, or the whole organization. */
  predicate InScope(h: Hierarchy, b: Binding, r: Resource) {
    match b.scope
    case None => AtOrBelow(h, r, Resource(Organization, b.org))
    case Some(scope) => AtOrBelow(h, r, scope)
  }

  /** The resource itself, its parent, or the parent of that. */
  predicate AtOrBelow(h: Hierarchy, r: Resource, top: Resource) {
    r == top || (r in h && h[r].parent.Some? && (h[r].parent.value == top || (h[r].parent.value in h && h[h[r].parent.value].parent == Some(top))))
  }

  /** This stored permission of this binding allows the request. */
  predicate Allows(catalog: Catalog, db: Database, b: Binding, permission: string, r: Resource, action: string) {
    && b in db.bindings && (b.org, b.role) in db.roles && permission in db.roles[(b.org, b.role)]
    && InScope(db.hierarchy, b, r) && Gives(catalog, permission, action)
  }

  lemma AtOrBelowIsUp(h: Hierarchy, r: Resource, top: Resource)
    requires Typed(h) && Closed(h)
    ensures AtOrBelow(h, r, top) <==> top in EffectiveScopes(h, r)
  {
    EffectiveScopesAreUp(h, r);
    if r in h {
      TwoSteps(h, r, MAX_RESOURCE_DEPTH);
    }
  }

  lemma InScopeIsEffective(db: Database, b: Binding, r: Resource)
    requires Typed(db.hierarchy) && Closed(db.hierarchy)
    ensures ResourceOf(b) in EffectiveScopes(db.hierarchy, r) <==> InScope(db.hierarchy, b, r)
  {
    hide EffectiveScopes, AtOrBelow;
    AtOrBelowIsUp(db.hierarchy, r, ResourceOf(b));
  }

  /**
   * With well-shaped hierarchies and role ids of one organization each, a request
   * is allowed exactly if one permission of one binding of the subject allows it:
   * in scope, and by the table.
   */
  lemma AllowedExactly(catalog: Catalog, db: Database, subject: string, r: Resource, action: string)
    requires ClearDatabase(db) && UniqueRoleIds(db) && Typed(db.hierarchy) && Closed(db.hierarchy) && IsUuidText(subject)
    ensures Enforce(catalog, LoadedFacts(db), subject, r, action)
            <==> exists b: Binding, permission :: b.subject == subject && Allows(catalog, db, b, permission, r, action)
  {
    hide Enforce, IsUuidText, ClearDatabase, PermissionMatch, Gives, InScope, EffectiveScopes;
    TypedHierarchiesAreShort(db.hierarchy);
    UniqueIdsMatch(catalog, db);
    AllowedIffGranted(catalog, db, subject, r, action);
    if Granted(catalog, db, subject, r, action) {
      var b :| b in db.bindings && EffectiveBinding(db, b, r) && b.subject == subject && AnyMatch(catalog, PermissionsOf(db, b), action);
      var permission :| permission in PermissionsOf(db, b) && PermissionMatch(catalog, action, permission);
      MatchesExactly(catalog, permission, action);
      InScopeIsEffective(db, b, r);
      assert Allows(catalog, db, b, permission, r, action);
    }
    if b: Binding, permission :| b.subject == subject && Allows(catalog, db, b, permission, r, action) {
      MatchesExactly(catalog, permission, action);
      InScopeIsEffective(db, b, r);
      assert permission in PermissionsOf(db, b) && EffectiveBinding(db, b, r);
    }
  }

  /** Whatever the hierarchy and the role ids: without a permission that gives it, an action is refused everywhere. */
  lemma RefusedWithoutGrant(catalog: Catalog, db: Database, subject: string, r: Resource, action: string)
    requires ClearDatabase(db) && IsUuidText(subject)
    requires forall b, c :: b in db.bindings && b.subject == subject && c in db.bindings && c.role == b.role && (c.org, c.role) in db.roles ==>
      forall permission :: permission in db.roles[(c.org, c.role)] ==> !Gives(catalog, permission, action)
    ensures !Enforce(catalog, LoadedFacts(db), subject, r, action)
  {
    hide Enforce, IsUuidText, ClearDatabase, PermissionMatch, Gives, Up;
    EnforceDecides(catalog, db, subject, r, action);
    if GrantedByKey(catalog, db, subject, r, action) {
      var b :| b in db.bindings && b.subject == subject && PermissionsOf(db, b) != {}
        && ResourceOf(b) in Up(db.hierarchy, r, MAX_HIERARCHY_LEVEL) && SharesMatch(catalog, db, b, action);
      var c :| c in db.bindings && c.role == b.role && ResourceOf(c) == ResourceOf(b) && AnyMatch(catalog, PermissionsOf(db, c), action);
      var permission :| permission in PermissionsOf(db, c) && PermissionMatch(catalog, action, permission);
      MatchesExactly(catalog, permission, action);
    }
  }

  /** A management action of the platform: one of its catalogued manage permissions, or manage itself. */
  predicate IsManagement(catalog: Catalog, action: string) {
    action == "manage" || Ordinary(catalog, action, Manage) || (action in catalog && action in {"provisioning_read", "provisioning_write"})
  }

  /**
   * Roles that only read and write everything, as the built-in Viewer and Deployer
   * roles do, are refused every management action on every resource.
   */
  lemma WritersDoNotManage(catalog: Catalog, db: Database, subject: string, r: Resource, action: string)
    requires ClearDatabase(db) && IsUuidText(subject)
    requires IsManagement(catalog, action) && action !in {"write_all", "read_all"}
    requires forall b, c :: b in db.bindings && b.subject == subject && c in db.bindings && c.role == b.role && (c.org, c.role) in db.roles ==>
      db.roles[(c.org, c.role)] <= {"write_all", "read_all", "write", "read"}
    ensures !Enforce(catalog, LoadedFacts(db), subject, r, action)
  {
    hide Enforce, IsUuidText, ClearDatabase;
    assert forall permission :: permission in {"write_all", "read_all", "write", "read"} ==> !Gives(catalog, permission, action);
    hide Gives, IsManagement;
    RefusedWithoutGrant(catalog, db, subject, r, action);
  }

  /** A subject with one binding, of a role with one permission: exactly its requests, exactly in its scope. */
  lemma OneBindingDecides(catalog: Catalog, db: Database, b: Binding, permission: string, r: Resource, action: string)
    requires ClearDatabase(db) && UniqueRoleIds(db) && Typed(db.hierarchy) && Closed(db.hierarchy) && IsUuidText(b.subject)
    requires b in db.bindings && (forall c :: c in db.bindings && c.subject == b.subject ==> c == b)
    requires (b.org, b.role) in db.roles && db.roles[(b.org, b.role)] == {permission}
    ensures Enforce(catalog, LoadedFacts(db), b.subject, r, action) <==> InScope(db.hierarchy, b, r) && Gives(catalog, permission, action)
  {
    hide Enforce, IsUuidText, ClearDatabase, Gives, InScope, UniqueRoleIds, Typed;
    AllowedExactly(catalog, db, b.subject, r, action);
    if InScope(db.hierarchy, b, r) && Gives(catalog, permission, action) {
      assert Allows(catalog, db, b, permission, r, action);
    }
  }
}
