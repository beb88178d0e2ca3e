/**
 * Casbin's decision over the loaded facts against the bindings the database
 * lists: which grants they agree on, and exactly when.
 */
module DecisionTheorems {
  import opened Common
  import opened Resources
  import opened Decision

  // ------------------------------------------------------------ subjects and bindings

  /** Subjects have no incoming role edges and binding keys no outgoing ones, so links are facts. */
  lemma SubjectLinksAreFacts(g: set<(string, string)>, subject: string, key: string)
    requires forall e :: e in g ==> ':' !in e.0 && ':' in e.1
    requires ':' !in subject && ':' in key
    ensures HasLink(g, subject, key, MAX_HIERARCHY_LEVEL) <==> (subject, key) in g
  {
    forall e | e in g ensures HasLink(g, e.1, key, MAX_HIERARCHY_LEVEL - 1) <==> e.1 == key {
    }
    if (subject, key) in g {
      var e := (subject, key);
      assert e in g && e.0 == subject && HasLink(g, e.1, key, MAX_HIERARCHY_LEVEL - 1);
    }
  }

  lemma KeysHaveAColon(role: string, resource: Resource)
    ensures ':' in BindingKey(role, resource)
  {
    assert BindingKey(role, resource)[4] == ':';
  }

  // ------------------------------------------------------------------- the hierarchy

  /** A resource and its ancestors up to `level` steps away. */
  function Up(h: Hierarchy, r: Resource, level: nat): set<Resource>
    decreases level
  {
    {r} + (if r in h && h[r].parent.Some? && level > 0 then Up(h, h[r].parent.value, level - 1) else {})
  }

  lemma {:induction false} LinksGoUp(h: Hierarchy, a: Resource, b: Resource, level: nat)
    ensures HasLink(Relations(h), a, b, level) <==> b in Up(h, a, level)
    decreases level
  {
    if level > 0 && a in h && h[a].parent.Some? {
      var e := (a, h[a].parent.value);
      assert e in Relations(h);
      LinksGoUp(h, e.1, b, level - 1);
      assert forall f :: f in Relations(h) && f.0 == a ==> f == e;
    }
  }

  lemma {:induction false} AncestorsAreUp(h: Hierarchy, r: Resource, depth: nat)
    requires Closed(h) && r in h && depth <= MAX_RESOURCE_DEPTH
    ensures Ancestors(h, r, depth) == Up(h, r, MAX_RESOURCE_DEPTH - depth)
    decreases MAX_RESOURCE_DEPTH - depth
  {
    if h[r].parent.Some? && depth < MAX_RESOURCE_DEPTH {
      AncestorsAreUp(h, h[r].parent.value, depth + 1);
    }
  }

  lemma EffectiveScopesAreUp(h: Hierarchy, r: Resource)
    requires Closed(h)
    ensures EffectiveScopes(h, r) == Up(h, r, MAX_RESOURCE_DEPTH)
  {
    if r in h {
      AncestorsAreUp(h, r, 0);
      assert r in Up(h, r, MAX_RESOURCE_DEPTH);
    }
  }

  /** The two depth limits make no difference: ten steps up reach nothing that three do not. */
  predicate ShortChains(h: Hierarchy) {
    forall r :: r in h ==> Up(h, r, MAX_HIERARCHY_LEVEL) == Up(h, r, MAX_RESOURCE_DEPTH)
  }

  /** Hierarchies built by synchronisation, or seeded by the schema migration, are at most two steps high. */
  lemma TypedHierarchiesAreShort(h: Hierarchy)
    requires Typed(h) && Closed(h)
    ensures ShortChains(h)
  {
    forall r | r in h ensures Up(h, r, MAX_HIERARCHY_LEVEL) == Up(h, r, MAX_RESOURCE_DEPTH) {
      TwoSteps(h, r, MAX_HIERARCHY_LEVEL);
      TwoSteps(h, r, MAX_RESOURCE_DEPTH);
    }
  }

  lemma TwoSteps(h: Hierarchy, r: Resource, level: nat)
    requires Typed(h) && Closed(h) && r in h && level >= 2
    ensures Up(h, r, level) == Up(h, r, 2)
  {
    assert TypedRow(r, h[r]);
    if h[r].parent.Some? {
      var p := h[r].parent.value;
      assert TypedRow(p, h[p]);
      OneStep(h, p, level - 1);
      OneStep(h, p, 1);
    }
  }

  /** Above a project or an organization there is at most an organization. */
  lemma OneStep(h: Hierarchy, r: Resource, level: nat)
    requires Typed(h) && Closed(h) && r in h && r.kind != Env && level >= 1
    ensures Up(h, r, level) == if h[r].parent.Some? then {r, h[r].parent.value} else {r}
  {
    assert TypedRow(r, h[r]);
    if h[r].parent.Some? {
      var p := h[r].parent.value;
      assert TypedRow(p, h[p]);
      assert Up(h, p, level - 1) == {p};
    }
  }

  // ------------------------------------------------------ exactly what Casbin decides

  /**
   * A binding key names the role id and the resource but not the organization:
   * two roles that share an id share their permissions on a common resource.
   */
  predicate GrantedByKey(catalog: Catalog, db: Database, subject: string, r: Resource, action: string) {
    exists b :: b in db.bindings && b.subject == subject && PermissionsOf(db, b) != {}
      && ResourceOf(b) in Up(db.hierarchy, r, MAX_HIERARCHY_LEVEL)
      && SharesMatch(catalog, db, b, action)
  }

  /** Some binding with the same role id on the same resource has a matching permission. */
  predicate SharesMatch(catalog: Catalog, db: Database, b: Binding, action: string) {
    exists c :: c in db.bindings && c.role == b.role && ResourceOf(c) == ResourceOf(b)
      && AnyMatch(catalog, PermissionsOf(db, c), action)
  }

  lemma FactsHaveColons(db: Database)
    requires ClearDatabase(db)
    ensures forall e :: e in LoadedFacts(db).g ==> ':' !in e.0 && ':' in e.1
  {
    forall e | e in LoadedFacts(db).g ensures ':' !in e.0 && ':' in e.1 {
      var row :| row in PolicyRows(db) && e == GFact(row);
      KeysHaveAColon(row.role, row.resource);
    }
  }

  /** Whatever the tables hold, this is what Casbin allows. */
  lemma EnforceDecides(catalog: Catalog, db: Database, subject: string, r: Resource, action: string)
    requires ClearDatabase(db) && IsUuidText(subject)
    ensures Enforce(catalog, LoadedFacts(db), subject, r, action) <==> GrantedByKey(catalog, db, subject, r, action)
  {
    hide PermissionMatch, HasLink, BindingKey, Up;
    if Enforce(catalog, LoadedFacts(db), subject, r, action) {
      EnforceIsGranted(catalog, db, subject, r, action);
    }
    if GrantedByKey(catalog, db, subject, r, action) {
      GrantedIsEnforced(catalog, db, subject, r, action);
    }
  }

  lemma EnforceIsGranted(catalog: Catalog, db: Database, subject: string, r: Resource, action: string)
    requires ClearDatabase(db) && IsUuidText(subject) && Enforce(catalog, LoadedFacts(db), subject, r, action)
    ensures GrantedByKey(catalog, db, subject, r, action)
  {
    hide PermissionMatch, HasLink, BindingKey, Up;
    var facts := LoadedFacts(db);
    var f :| f in facts.p && MatchesFact(catalog, facts, subject, r, action, f);
    var prow :| prow in PolicyRows(db) && f == PFact(prow);
    var c, permission :| c in db.bindings && permission in PermissionsOf(db, c) && prow == RowFor(c, permission);
    FactsHaveColons(db);
    KeysHaveAColon(prow.role, prow.resource);
    SubjectLinksAreFacts(facts.g, subject, f.0);
    var grow :| grow in PolicyRows(db) && (subject, f.0) == GFact(grow);
    var b, other :| b in db.bindings && other in PermissionsOf(db, b) && grow == RowFor(b, other);
    BindingKeyInjective(b.role, ResourceOf(b), c.role, ResourceOf(c));
    LinksGoUp(db.hierarchy, r, f.1, MAX_HIERARCHY_LEVEL);
    UpHasSelf(db.hierarchy, r);
    assert AnyMatch(catalog, PermissionsOf(db, c), action);
    assert SharesMatch(catalog, db, b, action);
  }

  lemma UpHasSelf(h: Hierarchy, r: Resource)
    ensures r in Up(h, r, MAX_HIERARCHY_LEVEL)
  {
  }

  lemma GrantedIsEnforced(catalog: Catalog, db: Database, subject: string, r: Resource, action: string)
    requires ClearDatabase(db) && IsUuidText(subject) && GrantedByKey(catalog, db, subject, r, action)
    ensures Enforce(catalog, LoadedFacts(db), subject, r, action)
  {
    hide PermissionMatch, HasLink, BindingKey, Up;
    var facts := LoadedFacts(db);
    var b :| b in db.bindings && b.subject == subject && PermissionsOf(db, b) != {}
      && ResourceOf(b) in Up(db.hierarchy, r, MAX_HIERARCHY_LEVEL) && SharesMatch(catalog, db, b, action);
    var c :| c in db.bindings && c.role == b.role && ResourceOf(c) == ResourceOf(b) && AnyMatch(catalog, PermissionsOf(db, c), action);
    var permission :| permission in PermissionsOf(db, c) && PermissionMatch(catalog, action, permission);
    var other :| other in PermissionsOf(db, b);
    assert RowFor(c, permission) in PolicyRows(db) && RowFor(b, other) in PolicyRows(db);
    var f := PFact(RowFor(c, permission));
    assert f in facts.p && GFact(RowFor(b, other)) == (subject, f.0);
    FactsHaveColons(db);
    KeysHaveAColon(c.role, ResourceOf(c));
    SubjectLinksAreFacts(facts.g, subject, f.0);
    LinksGoUp(db.hierarchy, r, f.1, MAX_HIERARCHY_LEVEL);
    assert MatchesFact(catalog, facts, subject, r, action, f);
  }

  // --------------------------------------------------------- agreement with the tables

  /** Role ids are unique across organizations. */
  predicate UniqueRoleIds(db: Database) {
    forall k, l :: k in db.roles && l in db.roles && k.1 == l.1 ==> k == l
  }

  type Roles = map<(string, string), set<string>>

  /** Roles of different organizations that share an id allow the same actions, or one of them allows nothing at all. */
  ghost predicate SharedIdsMatch(catalog: Catalog, roles: Roles) {
    forall k, l :: k in roles && l in roles && k.1 == l.1 && roles[k] != {} && roles[l] != {} ==>
      MatchAlike(catalog, roles[k], roles[l])
  }

  ghost predicate MatchAlike(catalog: Catalog, permissions: set<string>, others: set<string>) {
    forall action :: AnyMatch(catalog, permissions, action) <==> AnyMatch(catalog, others, action)
  }

  lemma UniqueIdsMatch(catalog: Catalog, db: Database)
    requires UniqueRoleIds(db)
    ensures SharedIdsMatch(catalog, db.roles)
  {
    hide AnyMatch;
  }

  ghost predicate Agrees(catalog: Catalog, db: Database) {
    forall subject, r, action :: IsUuidText(subject) ==>
      (Enforce(catalog, LoadedFacts(db), subject, r, action) <==> Granted(catalog, db, subject, r, action))
  }

  /** A request is allowed exactly when the resource has an effective binding that grants it. */
  lemma AllowedIffGranted(catalog: Catalog, db: Database, subject: string, r: Resource, action: string)
    requires ClearDatabase(db) && SharedIdsMatch(catalog, db.roles) && Closed(db.hierarchy) && ShortChains(db.hierarchy)
    requires IsUuidText(subject)
    ensures Enforce(catalog, LoadedFacts(db), subject, r, action) <==> Granted(catalog, db, subject, r, action)
  {
    hide PermissionMatch, Enforce, Up, IsUuidText;
    EnforceDecides(catalog, db, subject, r, action);
    EffectiveScopesAreUp(db.hierarchy, r);
    assert Up(db.hierarchy, r, MAX_HIERARCHY_LEVEL) == Up(db.hierarchy, r, MAX_RESOURCE_DEPTH) by { UpOfUnknown(db.hierarchy, r); }
    if GrantedByKey(catalog, db, subject, r, action) {
      var b :| b in db.bindings && b.subject == subject && PermissionsOf(db, b) != {}
        && ResourceOf(b) in Up(db.hierarchy, r, MAX_HIERARCHY_LEVEL) && SharesMatch(catalog, db, b, action);
      var c :| c in db.bindings && c.role == b.role && ResourceOf(c) == ResourceOf(b) && AnyMatch(catalog, PermissionsOf(db, c), action);
      assert PermissionsOf(db, c) != {};
      assert MatchAlike(catalog, db.roles[(b.org, b.role)], db.roles[(c.org, c.role)]);
      assert EffectiveBinding(db, b, r) && AnyMatch(catalog, PermissionsOf(db, b), action);
    }
    if Granted(catalog, db, subject, r, action) {
      var b :| b in db.bindings && EffectiveBinding(db, b, r) && b.subject == subject && AnyMatch(catalog, PermissionsOf(db, b), action);
      assert PermissionsOf(db, b) != {} && SharesMatch(catalog, db, b, action);
    }
  }

  lemma UpOfUnknown(h: Hierarchy, r: Resource)
    ensures r !in h ==> Up(h, r, MAX_HIERARCHY_LEVEL) == Up(h, r, MAX_RESOURCE_DEPTH)
  {
  }

  /** In particular after any number of synchronisations. */
  lemma AgreesAfterSync(catalog: Catalog, db: Database, h0: Hierarchy, org: string, answer: Answer)
    requires ClearDatabase(db) && UniqueRoleIds(db)
    requires Closed(h0) && Typed(h0) && SyncedTo(h0, db.hierarchy, org, answer)
    ensures Agrees(catalog, db)
  {
    hide Enforce, Granted, SyncedTo, IsUuidText;
    SyncKeepsShape(h0, db.hierarchy, org, answer);
    TypedHierarchiesAreShort(db.hierarchy);
    UniqueIdsMatch(catalog, db);
    forall subject, r, action | IsUuidText(subject)
      ensures Enforce(catalog, LoadedFacts(db), subject, r, action) <==> Granted(catalog, db, subject, r, action)
    {
      AllowedIffGranted(catalog, db, subject, r, action);
    }
  }

  /** The decision agrees for every set of bindings and roles exactly when the hierarchy is short. */
  lemma AgreesIffShort(catalog: Catalog, h: Hierarchy)
    requires Closed(h)
    ensures (forall db: Database :: db.hierarchy == h && ClearDatabase(db) && UniqueRoleIds(db) ==> Agrees(catalog, db)) <==> ShortChains(h)
  {
    hide Enforce, Granted, IsUuidText;
    if ShortChains(h) {
      forall db: Database | db.hierarchy == h && ClearDatabase(db) && UniqueRoleIds(db) ensures Agrees(catalog, db) {
        UniqueIdsMatch(catalog, db);
        forall subject, r, action | IsUuidText(subject)
          ensures Enforce(catalog, LoadedFacts(db), subject, r, action) <==> Granted(catalog, db, subject, r, action)
        {
          AllowedIffGranted(catalog, db, subject, r, action);
        }
      }
    } else {
      var r :| r in h && Up(h, r, MAX_HIERARCHY_LEVEL) != Up(h, r, MAX_RESOURCE_DEPTH);
      UpGrows(h, r, MAX_RESOURCE_DEPTH, MAX_HIERARCHY_LEVEL);
      var far :| far in Up(h, r, MAX_HIERARCHY_LEVEL) && far !in Up(h, r, MAX_RESOURCE_DEPTH);
      var db := FarGrant(catalog, h, r, far);
    }
  }

  lemma {:induction false} UpGrows(h: Hierarchy, r: Resource, k: nat, l: nat)
    requires k <= l
    ensures Up(h, r, k) <= Up(h, r, l)
    decreases k
  {
    if k > 0 && r in h && h[r].parent.Some? {
      UpGrows(h, h[r].parent.value, k - 1, l - 1);
    }
  }

  const FAR_ROLE := ("o", "r")

  /** One subject with one binding, of a role that may do everything. */
  function OneGrant(h: Hierarchy, far: Resource): Database {
    Database({Binding("u", "o", "r", Some(far))}, map[FAR_ROLE := {MANAGE_ALL}], h)
  }

  lemma OneGrantIsClear(h: Hierarchy, far: Resource)
    ensures ClearDatabase(OneGrant(h, far)) && UniqueRoleIds(OneGrant(h, far)) && IsUuidText("u")
  {
  }

  lemma OneGrantMatches(catalog: Catalog, h: Hierarchy, far: Resource)
    ensures AnyMatch(catalog, PermissionsOf(OneGrant(h, far), Binding("u", "o", "r", Some(far))), READ)
  {
    assert PermissionMatch(catalog, READ, MANAGE_ALL);
    assert MANAGE_ALL in PermissionsOf(OneGrant(h, far), Binding("u", "o", "r", Some(far)));
  }

  /** One binding beyond the third ancestor: Casbin honours it, the binding list does not. */
  lemma FarGrant(catalog: Catalog, h: Hierarchy, r: Resource, far: Resource) returns (db: Database)
    requires Closed(h) && far in Up(h, r, MAX_HIERARCHY_LEVEL) && far !in Up(h, r, MAX_RESOURCE_DEPTH)
    ensures db.hierarchy == h && ClearDatabase(db) && UniqueRoleIds(db) && !Agrees(catalog, db)
  {
    hide Up, ClearDatabase, UniqueRoleIds, IsUuidText, Enforce, AnyMatch;
    var b := Binding("u", "o", "r", Some(far));
    db := OneGrant(h, far);
    OneGrantIsClear(h, far);
    OneGrantMatches(catalog, h, far);
    EnforceDecides(catalog, db, "u", r, READ);
    EffectiveScopesAreUp(h, r);
    assert SharesMatch(catalog, db, b, READ);
    assert GrantedByKey(catalog, db, "u", r, READ) && !Granted(catalog, db, "u", r, READ);
  }

  predicate ClearRoles(roles: Roles) {
    forall k :: k in roles ==> IsUuidText(k.1) && forall p :: p in roles[k] ==> '$' !in p
  }

  /**
   * Two organizations' roles with one id: a binding of the one carries the
   * permissions of the other, as soon as both are bound on one resource.  The
   * schema allows such rows; role ids are drawn at random, so they would have to
   * be written by hand.
   */
  lemma SharedRoleIdOverGrants(catalog: Catalog, roles: Roles, h: Hierarchy, k: (string, string), l: (string, string), r: Resource, action: string)
    returns (db: Database)
    requires ClearRoles(roles) && k in roles && l in roles && k.1 == l.1 && roles[k] != {}
    requires AnyMatch(catalog, roles[l], action) && !AnyMatch(catalog, roles[k], action)
    ensures k.0 != l.0 && db.roles == roles && db.hierarchy == h && ClearDatabase(db)
    ensures Enforce(catalog, LoadedFacts(db), "u", r, action) && !Granted(catalog, db, "u", r, action)
    ensures !Agrees(catalog, db)
  {
    hide PermissionMatch, Enforce, AnyMatch, Up;
    var b, c := Binding("u", k.0, k.1, Some(r)), Binding("v", l.0, l.1, Some(r));
    db := Database({b, c}, roles, h);
    EnforceDecides(catalog, db, "u", r, action);
    UpHasSelf(h, r);
    assert SharesMatch(catalog, db, b, action);
    assert "u" != "v";
  }

  /** For example: in one organization the role only reads, in the other it may do everything. */
  lemma SharedRoleIdWitness(catalog: Catalog, r: Resource) returns (db: Database)
    ensures ClearDatabase(db) && db.roles == map[("a", "r") := {READ_ALL}, ("b", "r") := {MANAGE_ALL}]
    ensures Enforce(catalog, LoadedFacts(db), "u", r, MANAGE) && !Granted(catalog, db, "u", r, MANAGE)
  {
    var roles := map[("a", "r") := {READ_ALL}, ("b", "r") := {MANAGE_ALL}];
    assert MANAGE[0] != READ[0] && MANAGE[0] != READ_ALL[0] && MANAGE[0] != WRITE[0] && READ_ALL[1] != MODULE_READ[1] && |READ_ALL| != |MANAGE_ALL|;
    assert PermissionMatch(catalog, MANAGE, MANAGE_ALL) && !PermissionMatch(catalog, MANAGE, READ_ALL);
    db := SharedRoleIdOverGrants(catalog, roles, map[], ("a", "r"), ("b", "r"), r, MANAGE);
  }

  /**
   * Over a hierarchy short enough, and for roles as they are, the decision agrees
   * with the tables for every set of bindings if and only if roles that share an
   * id allow the same actions.
   */
  lemma AgreesIffSharedIdsMatch(catalog: Catalog, roles: Roles, h: Hierarchy)
    requires ClearRoles(roles) && Closed(h) && ShortChains(h)
    ensures (forall bindings: set<Binding> :: ClearDatabase(Database(bindings, roles, h)) ==> Agrees(catalog, Database(bindings, roles, h)))
            <==> SharedIdsMatch(catalog, roles)
  {
    hide Enforce, Granted, IsUuidText, AnyMatch, Up;
    if SharedIdsMatch(catalog, roles) {
      forall bindings: set<Binding> | ClearDatabase(Database(bindings, roles, h)) ensures Agrees(catalog, Database(bindings, roles, h)) {
        var db := Database(bindings, roles, h);
        forall subject, r, action | IsUuidText(subject)
          ensures Enforce(catalog, LoadedFacts(db), subject, r, action) <==> Granted(catalog, db, subject, r, action)
        {
          AllowedIffGranted(catalog, db, subject, r, action);
        }
      }
    } else {
      var k, l :| k in roles && l in roles && k.1 == l.1 && roles[k] != {} && roles[l] != {} && !MatchAlike(catalog, roles[k], roles[l]);
      var action :| AnyMatch(catalog, roles[k], action) != AnyMatch(catalog, roles[l], action);
      if AnyMatch(catalog, roles[k], action) {
        k, l := l, k;
      }
      var db := SharedRoleIdOverGrants(catalog, roles, h, k, l, Resource(Project, "p"), action);
      assert db == Database(db.bindings, roles, h);
    }
  }
}
