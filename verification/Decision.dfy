/**
 * What an authorization decision means.  The policy loader turns database rows
 * into Casbin facts; the matcher over those facts is proved to agree with the
 * effective role bindings the database itself lists for a resource.
 */
module Decision {
  import opened Common
  import opened Resources

  // ------------------------------------------------------------- permission matching

  datatype Level = Read | Write | Manage

  /** The platform's permissions and their levels. */
  type Catalog = map<string, Level>

  const READ := "read"
  const WRITE := "write"
  const MANAGE := "manage"
  const READ_ALL := "read_all"
  const WRITE_ALL := "write_all"
  const MANAGE_ALL := "manage_all"
  const MEMBER := "member"
  const PROVISIONING_READ := "provisioning_read"
  const PROVISIONING_WRITE := "provisioning_write"

  const MODULE_READ := "module_read"
  const MODULE_WRITE := "module_write"

  function LevelOf(catalog: Catalog, permission: string): Option<Level> {
    if permission == READ then Some(Level.Read)
    else if permission == WRITE then Some(Level.Write)
    else if permission == MANAGE then Some(Level.Manage)
    else if permission in catalog then Some(catalog[permission])
    else None
  }

  /** The levels a wildcard or plain level grant covers. */
  function LevelsOf(granted: string): set<Level> {
    if granted == WRITE_ALL then {Level.Write, Level.Read}
    else if granted == READ_ALL || granted == READ then {Level.Read}
    else if granted == WRITE then {Level.Write}
    else if granted == MANAGE then {Level.Manage}
    else {}
  }

  /** The finer module permissions that a legacy module grant keeps covering. */
  predicate LegacyModuleMatch(requested: string, granted: string) {
    if granted == MODULE_READ then requested == "module.read" || requested == "module.version.read"
    else granted == MODULE_WRITE &&
         (requested == "module.version.publish" || requested == "module.version.promote" || requested == "module.archive")
  }

  function Normalized(requested: string): string {
    if requested == MEMBER then READ else requested
  }

  predicate PermissionMatch(catalog: Catalog, request: string, granted: string) {
    var requested := Normalized(request);
    if requested == granted || granted == MANAGE_ALL then true
    else if LegacyModuleMatch(requested, granted) then true
    else if requested == PROVISIONING_READ || requested == PROVISIONING_WRITE then false
    else
      var level := LevelOf(catalog, requested);
      level.Some? && level.value in LevelsOf(granted)
  }

  /** Provisioning permissions are no ordinary reads and writes: only their exact grant or manage_all gives them. */
  lemma ProvisioningNeedsItsGrant(catalog: Catalog, request: string, granted: string)
    requires request == PROVISIONING_READ || request == PROVISIONING_WRITE
    ensures PermissionMatch(catalog, request, granted) <==> granted == request || granted == MANAGE_ALL
  {
    assert request[0] == 'p' && READ[0] == 'r' && MEMBER[0] == 'm';
    assert "module.read"[0] == 'm' && "module.version.read"[0] == 'm' && "module.archive"[0] == 'm';
    assert "module.version.publish"[0] == 'm' && "module.version.promote"[0] == 'm';
  }

  /** A permission outside the platform's catalogue is matched by itself or manage_all only. */
  lemma UnknownPermissionsMatchExactly(catalog: Catalog, request: string, granted: string)
    requires request != MEMBER && LevelOf(catalog, request).None? && !LegacyModuleMatch(request, granted)
    ensures PermissionMatch(catalog, request, granted) <==> granted == request || granted == MANAGE_ALL
  {
  }

  /** The wildcards form a chain: what read_all gives, write_all gives too, except the name read_all itself. */
  lemma WildcardsAreNested(catalog: Catalog, request: string)
    requires Normalized(request) != READ_ALL
    ensures PermissionMatch(catalog, request, READ_ALL) ==> PermissionMatch(catalog, request, WRITE_ALL)
    ensures PermissionMatch(catalog, request, WRITE_ALL) ==> PermissionMatch(catalog, request, MANAGE_ALL)
  {
    assert READ_ALL != MODULE_READ && READ_ALL != MODULE_WRITE by { assert READ_ALL[0] == 'r' && MODULE_READ[0] == 'm' && MODULE_WRITE[0] == 'm'; }
    assert READ_ALL != WRITE_ALL by { assert WRITE_ALL[0] == 'w'; }
    assert READ_ALL != MANAGE_ALL by { assert MANAGE_ALL[0] == 'm'; }
  }

  // ------------------------------------------------------------------- Casbin facts

  const MAX_HIERARCHY_LEVEL := 10
  const MAX_RESOURCE_DEPTH := 3

  /** A row of the policy query: one permission of one role binding. */
  datatype PolicyRow = PolicyRow(subject: string, resource: Resource, permission: string, role: string)

  datatype Facts = Facts(g: set<(string, string)>, p: set<(string, Resource, string)>, g2: set<(Resource, Resource)>)

  function KindText(kind: Kind): string {
    match kind
    case Organization => "organization"
    case Project => "project"
    case Env => "env"
  }

  function Text(r: Resource): string {
    KindText(r.kind) + ":" + r.id
  }

  function BindingKey(role: string, resource: Resource): string {
    "role:" + role + "@" + Text(resource)
  }

  /** Uuids contain neither separators nor the prefix of binding keys. */
  predicate IsUuidText(s: string) {
    '$' !in s && '@' !in s && ':' !in s
  }

  /** Role permissions match a pattern without the dollar sign. */
  predicate ClearRow(row: PolicyRow) {
    IsUuidText(row.subject) && IsUuidText(row.role) && '$' !in row.permission
  }

  function MembershipKey(row: PolicyRow): string {
    row.subject + "$$" + BindingKey(row.role, row.resource)
  }

  function PolicyKey(row: PolicyRow): string {
    BindingKey(row.role, row.resource) + "$$" + row.permission
  }

  function GFact(row: PolicyRow): (string, string) {
    (row.subject, BindingKey(row.role, row.resource))
  }

  function PFact(row: PolicyRow): (string, Resource, string) {
    (BindingKey(row.role, row.resource), row.resource, row.permission)
  }

  function FactsOf(policies: set<PolicyRow>, relations: set<(Resource, Resource)>): Facts {
    Facts(set row | row in policies :: GFact(row), set row | row in policies :: PFact(row), relations)
  }

  // ------------------------------------------------------------ keys are unambiguous

  /** Text before the first separator character determines both halves. */
  lemma SplitAtFirst(a: string, b: string, c: string, d: string, sep: char)
    requires sep !in a && sep !in c && a + [sep] + b == c + [sep] + d
    ensures a == c && b == d
  {
    var s := a + [sep] + b;
    assert s[|a|] == sep && forall i :: 0 <= i < |a| ==> s[i] == a[i];
    assert s[|c|] == sep && forall i :: 0 <= i < |c| ==> s[i] == c[i];
    assert |a| == |c|;
    assert a == s[..|a|] == c && b == s[|a| + 1..] == d;
  }

  /** Text after the last separator character determines both halves. */
  lemma SplitAtLast(a: string, b: string, c: string, d: string, sep: char)
    requires sep !in b && sep !in d && a + [sep] + b == c + [sep] + d
    ensures a == c && b == d
  {
    var s := a + [sep] + b;
    assert s[|a|] == sep && forall i :: |a| < i < |s| ==> s[i] == b[i - |a| - 1];
    assert s[|c|] == sep && forall i :: |c| < i < |s| ==> s[i] == d[i - |c| - 1];
    assert |a| == |c|;
    assert a == s[..|a|] == c && b == s[|a| + 1..] == d;
  }

  lemma TextInjective(r: Resource, s: Resource)
    requires Text(r) == Text(s)
    ensures r == s
  {
    KindTextsClear(r.kind);
    KindTextsClear(s.kind);
    SplitAtFirst(KindText(r.kind), r.id, KindText(s.kind), s.id, ':');
    assert "organization"[0] == 'o' && "project"[0] == 'p' && "env"[0] == 'e';
  }

  lemma KindTextsClear(kind: Kind)
    ensures ':' !in KindText(kind)
  {
  }

  lemma BindingKeyInjective(role: string, resource: Resource, role': string, resource': Resource)
    requires IsUuidText(role) && IsUuidText(role') && BindingKey(role, resource) == BindingKey(role', resource')
    ensures role == role' && resource == resource'
  {
    var rest, rest' := role + "@" + Text(resource), role' + "@" + Text(resource');
    assert BindingKey(role, resource) == "role:" + rest && BindingKey(role', resource') == "role:" + rest';
    assert rest == ("role:" + rest)[5..] == rest';
    SplitAtFirst(role, Text(resource), role', Text(resource'), '@');
    TextInjective(resource, resource');
  }

  lemma MembershipKeyDetermines(row: PolicyRow, row': PolicyRow)
    requires ClearRow(row) && ClearRow(row') && MembershipKey(row) == MembershipKey(row')
    ensures GFact(row) == GFact(row')
  {
    var key, key' := BindingKey(row.role, row.resource), BindingKey(row'.role, row'.resource);
    assert MembershipKey(row) == row.subject + ['$'] + (['$'] + key);
    assert MembershipKey(row') == row'.subject + ['$'] + (['$'] + key');
    SplitAtFirst(row.subject, ['$'] + key, row'.subject, ['$'] + key', '$');
    assert key == (['$'] + key)[1..] == key';
  }

  lemma PolicyKeyDetermines(row: PolicyRow, row': PolicyRow)
    requires ClearRow(row) && ClearRow(row') && PolicyKey(row) == PolicyKey(row')
    ensures PFact(row) == PFact(row')
  {
    var key, key' := BindingKey(row.role, row.resource), BindingKey(row'.role, row'.resource);
    assert PolicyKey(row) == (key + ['$']) + ['$'] + row.permission;
    assert PolicyKey(row') == (key' + ['$']) + ['$'] + row'.permission;
    SplitAtLast(key + ['$'], row.permission, key' + ['$'], row'.permission, '$');
    assert key == (key + ['$'])[..|key|] && |key| == |key'|;
    BindingKeyInjective(row.role, row.resource, row'.role, row'.resource);
  }

  // ------------------------------------------------------------ loading the policy

  /** Rows with the same key give the same fact, so the second one may be skipped. */
  method LoadPolicy(policies: seq<PolicyRow>, relations: seq<(Resource, Resource)>) returns (facts: Facts)
    requires forall row :: row in policies ==> ClearRow(row)
    ensures facts == FactsOf(set row | row in policies, set e | e in relations)
  {
    hide MembershipKey, PolicyKey, GFact, PFact, ClearRow;
    facts := Facts({}, {}, {});
    var loadedBindings: set<string>, loadedPolicies: set<string> := {}, {};
    for i := 0 to |policies|
      invariant facts.g == set row | row in policies[..i] :: GFact(row)
      invariant facts.p == set row | row in policies[..i] :: PFact(row)
      invariant facts.g2 == {}
      invariant loadedBindings == set row | row in policies[..i] :: MembershipKey(row)
      invariant loadedPolicies == set row | row in policies[..i] :: PolicyKey(row)
    {
      var row := policies[i];
      assert row in policies && policies[..i + 1] == policies[..i] + [row];
      SkippedIfLoaded(policies[..i], row);
      if MembershipKey(row) !in loadedBindings {
        facts := facts.(g := facts.g + {GFact(row)});
        loadedBindings := loadedBindings + {MembershipKey(row)};
      }
      if PolicyKey(row) !in loadedPolicies {
        facts := facts.(p := facts.p + {PFact(row)});
        loadedPolicies := loadedPolicies + {PolicyKey(row)};
      }
    }
    assert policies[..|policies|] == policies;
    for i := 0 to |relations|
      invariant facts.g == (set row | row in policies :: GFact(row)) && facts.p == (set row | row in policies :: PFact(row))
      invariant facts.g2 == set e | e in relations[..i]
    {
      assert relations[..i + 1] == relations[..i] + [relations[i]];
      facts := facts.(g2 := facts.g2 + {relations[i]});
    }
    assert relations[..|relations|] == relations;
  }

  lemma SkippedIfLoaded(rows: seq<PolicyRow>, row: PolicyRow)
    requires ClearRow(row) && forall r :: r in rows ==> ClearRow(r)
    ensures MembershipKey(row) in (set r | r in rows :: MembershipKey(r)) ==> GFact(row) in (set r | r in rows :: GFact(r))
    ensures PolicyKey(row) in (set r | r in rows :: PolicyKey(r)) ==> PFact(row) in (set r | r in rows :: PFact(r))
  {
    if MembershipKey(row) in (set r | r in rows :: MembershipKey(r)) {
      var r :| r in rows && MembershipKey(r) == MembershipKey(row);
      MembershipKeyDetermines(r, row);
    }
    if PolicyKey(row) in (set r | r in rows :: PolicyKey(r)) {
      var r :| r in rows && PolicyKey(r) == PolicyKey(row);
      PolicyKeyDetermines(r, row);
    }
  }

  // -------------------------------------------------------------------- the matcher

  /** Casbin's role graph: reachable in at most `level` steps, zero included. */
  predicate HasLink<T(==)>(edges: set<(T, T)>, a: T, b: T, level: nat)
    decreases level
  {
    a == b || (level > 0 && exists e :: e in edges && e.0 == a && HasLink(edges, e.1, b, level - 1))
  }

  predicate MatchesFact(catalog: Catalog, facts: Facts, subject: string, resource: Resource, action: string, f: (string, Resource, string)) {
    && HasLink(facts.g, subject, f.0, MAX_HIERARCHY_LEVEL)
    && (resource == f.1 || HasLink(facts.g2, resource, f.1, MAX_HIERARCHY_LEVEL))
    && PermissionMatch(catalog, action, f.2)
  }

  /** Some policy allows the request. */
  predicate Enforce(catalog: Catalog, facts: Facts, subject: string, resource: Resource, action: string) {
    exists f :: f in facts.p && MatchesFact(catalog, facts, subject, resource, action, f)
  }

  // ------------------------------------------------------------- what the database says

  /** A membership or service-user role; no scope means the whole organization. */
  datatype Binding = Binding(subject: string, org: string, role: string, scope: Option<Resource>)

  datatype Database = Database(bindings: set<Binding>, roles: map<(string, string), set<string>>, hierarchy: Hierarchy)

  function ResourceOf(b: Binding): Resource {
    if b.scope.None? then Resource(Organization, b.org) else b.scope.value
  }

  /** The joined role of a binding; a binding without a stored role grants nothing. */
  predicate HasRole(db: Database, b: Binding) {
    b in db.bindings && (b.org, b.role) in db.roles
  }

  function PermissionsOf(db: Database, b: Binding): set<string> {
    if (b.org, b.role) in db.roles then db.roles[(b.org, b.role)] else {}
  }

  function RowFor(b: Binding, permission: string): PolicyRow {
    PolicyRow(b.subject, ResourceOf(b), permission, b.role)
  }

  function PolicyRows(db: Database): set<PolicyRow> {
    set b, permission | b in db.bindings && permission in PermissionsOf(db, b) :: RowFor(b, permission)
  }

  function Relations(h: Hierarchy): set<(Resource, Resource)> {
    set r | r in h && h[r].parent.Some? :: (r, h[r].parent.value)
  }

  function LoadedFacts(db: Database): Facts {
    FactsOf(PolicyRows(db), Relations(db.hierarchy))
  }

  /** The recursive ancestor query, rows of depth `depth` on. */
  function Ancestors(h: Hierarchy, r: Resource, depth: nat): set<Resource>
    decreases MAX_RESOURCE_DEPTH - depth
  {
    if r !in h then {}
    else {r} + (if h[r].parent.Some? && depth < MAX_RESOURCE_DEPTH then Ancestors(h, h[r].parent.value, depth + 1) else {})
  }

  function EffectiveScopes(h: Hierarchy, r: Resource): set<Resource> {
    Ancestors(h, r, 0) + {r}
  }

  predicate EffectiveBinding(db: Database, b: Binding, r: Resource) {
    HasRole(db, b) && ResourceOf(b) in EffectiveScopes(db.hierarchy, r)
  }

  predicate AnyMatch(catalog: Catalog, permissions: set<string>, action: string) {
    exists permission :: permission in permissions && PermissionMatch(catalog, action, permission)
  }

  /** One of the subject's effective bindings on the resource has a matching permission. */
  predicate Granted(catalog: Catalog, db: Database, subject: string, r: Resource, action: string) {
    exists b :: b in db.bindings && EffectiveBinding(db, b, r) && b.subject == subject && AnyMatch(catalog, PermissionsOf(db, b), action)
  }

  predicate ClearDatabase(db: Database) {
    && (forall b :: b in db.bindings ==> IsUuidText(b.subject) && IsUuidText(b.role))
    && (forall k, p :: k in db.roles && p in db.roles[k] ==> '$' !in p)
  }

  /** The loader applied to the database's queries, in whatever order their rows come. */
  lemma LoaderLoadsTheDatabase(db: Database, policies: seq<PolicyRow>, relations: seq<(Resource, Resource)>)
    requires ClearDatabase(db)
    requires (set row | row in policies) == PolicyRows(db) && (set e | e in relations) == Relations(db.hierarchy)
    ensures forall row :: row in policies ==> ClearRow(row)
    ensures FactsOf(set row | row in policies, set e | e in relations) == LoadedFacts(db)
  {
    forall row | row in policies ensures ClearRow(row) {
      assert row in PolicyRows(db);
    }
  }
}
