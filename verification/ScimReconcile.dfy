/**
 * The two reconcilers: one SCIM user at a time, and many users in a bounded
 * number of statements.  Both work on a transaction's tables and are proved
 * against the same description, ReconciledTo.
 */
module ScimReconcile {
  import opened Common
  import opened ScimTables

  datatype ReconcileError = MissingViewerRole(org: string)

  predicate Distinct<T(==)>(q: seq<T>) {
    forall i, j :: 0 <= i < j < |q| ==> q[i] != q[j]
  }

  /** The rows of a query, in whatever order the database returns them. */
  method Rows<T(==)>(s: set<T>) returns (q: seq<T>)
    ensures (forall x :: x in q <==> x in s) && Distinct(q)
  {
    q := [];
    var rest := s;
    while rest != {}
      invariant forall x :: x in s <==> x in q || x in rest
      invariant forall x :: x in q ==> x !in rest
      invariant Distinct(q)
      decreases rest
    {
      var x :| x in rest;
      q := q + [x];
      rest := rest - {x};
    }
  }

  // ------------------------------------------------------------- set-level lemmas

  predicate StaleMark(t: Tables, m: Id, targets: map<Id, set<Id>>) {
    && m in t.managed && m in t.memberships && t.managed[m] in targets
    && !(t.memberships[m].subject.RoleSubject? && t.memberships[m].subject.role in targets[t.managed[m]])
  }

  /** The ids of the managed memberships whose role is not wanted. */
  function StaleIds(t: Tables, targets: map<Id, set<Id>>): set<Id> {
    set m | m in t.managed && StaleMark(t, m, targets)
  }

  lemma StaleIdsGrants(t: Tables, targets: map<Id, set<Id>>)
    requires Consistent(t)
    ensures GrantsOf(t, StaleIds(t, targets)) == Stale(Grants(t), targets)
  {
    forall g ensures g in GrantsOf(t, StaleIds(t, targets)) <==> g in Stale(Grants(t), targets) {
      if g in Stale(Grants(t), targets) {
        var id :| id in t.memberships && g == Grant(t.memberships[id], OwnerOf(t.managed, id));
        assert id in StaleIds(t, targets);
      }
      if g in GrantsOf(t, StaleIds(t, targets)) {
        var id :| id in StaleIds(t, targets) && id in t.memberships && g == Grant(t.memberships[id], OwnerOf(t.managed, id));
        assert g in Grants(t) && IsStale(g, targets);
      }
    }
  }

  /** Managed grants for the (row, role) pairs whose membership is not among `kept`. */
  function Added(kept: set<Grant>, rows: map<Id, ScimRow>, pairs: set<(Id, Id)>): set<Grant> {
    set p | p in pairs && p.0 in rows && !Held(kept, RoleMembership(rows[p.0], p.1)) :: Grant(RoleMembership(rows[p.0], p.1), Scim(p.0))
  }

  predicate LivePairs(rows: map<Id, ScimRow>, pairs: set<(Id, Id)>) {
    forall p :: p in pairs ==> Live(rows, p.0)
  }

  /** Insert unless the uniqueness constraint objects: a human's grant stays a human's. */
  function CreateManaged(t: Tables, id: Id, role: Id): Tables
    requires id in t.rows
  {
    var m := RoleMembership(t.rows[id], role);
    if m in t.memberships.Values then t else InsertMembership(t, m, Scim(id))
  }

  lemma DistinctPairsDistinctMemberships(rows: map<Id, ScimRow>, p: (Id, Id), q: (Id, Id))
    requires UniqueLiveRows(rows) && Live(rows, p.0) && Live(rows, q.0)
    requires RoleMembership(rows[p.0], p.1) == RoleMembership(rows[q.0], q.1)
    ensures p == q
  {
    assert SameLiveUser(rows[p.0], rows[q.0]);
  }

  lemma HeldUnlessNew(rows: map<Id, ScimRow>, kept: set<Grant>, pairs: set<(Id, Id)>, p: (Id, Id))
    requires UniqueLiveRows(rows) && LivePairs(rows, pairs) && Live(rows, p.0) && p !in pairs
    ensures Held(kept + Added(kept, rows, pairs), RoleMembership(rows[p.0], p.1)) <==> Held(kept, RoleMembership(rows[p.0], p.1))
  {
    var m := RoleMembership(rows[p.0], p.1);
    if g :| g in Added(kept, rows, pairs) && g.membership == m {
      var q :| q in pairs && q.0 in rows && g == Grant(RoleMembership(rows[q.0], q.1), Scim(q.0));
      DistinctPairsDistinctMemberships(rows, p, q);
    }
    if g :| g in kept && g.membership == m {
      assert g in kept + Added(kept, rows, pairs);
    }
  }

  lemma AddedGrows(rows: map<Id, ScimRow>, kept: set<Grant>, pairs: set<(Id, Id)>, p: (Id, Id))
    requires p.0 in rows
    ensures var m := RoleMembership(rows[p.0], p.1);
            Added(kept, rows, pairs + {p}) == Added(kept, rows, pairs) + (if Held(kept, m) then {} else {Grant(m, Scim(p.0))})
  {
    var m := RoleMembership(rows[p.0], p.1);
    var more := Added(kept, rows, pairs) + (if Held(kept, m) then {} else {Grant(m, Scim(p.0))});
    forall g ensures g in Added(kept, rows, pairs + {p}) <==> g in more {
      if g in Added(kept, rows, pairs) {
        var q :| q in pairs && q.0 in rows && !Held(kept, RoleMembership(rows[q.0], q.1)) && g == Grant(RoleMembership(rows[q.0], q.1), Scim(q.0));
        assert q in pairs + {p};
      }
      assert p in pairs + {p};
    }
  }

  lemma HeldOnceAdded(rows: map<Id, ScimRow>, kept: set<Grant>, pairs: set<(Id, Id)>, id: Id, role: Id)
    requires id in rows && (id, role) in pairs
    ensures Held(kept + Added(kept, rows, pairs), RoleMembership(rows[id], role))
  {
    var m := RoleMembership(rows[id], role);
    if Held(kept, m) {
      var g :| g in kept && g.membership == m;
      assert g in kept + Added(kept, rows, pairs);
    } else {
      assert Grant(m, Scim(id)) in Added(kept, rows, pairs);
    }
  }

  lemma CreateManagedAdds(t: Tables, kept: set<Grant>, pairs: set<(Id, Id)>, id: Id, role: Id)
    requires Consistent(t) && LivePairs(t.rows, pairs) && Live(t.rows, id)
    requires Grants(t) == kept + Added(kept, t.rows, pairs)
    ensures var t' := CreateManaged(t, id, role);
      && Consistent(t') && SameExceptGrants(t, t') && t'.roles == t.roles
      && Grants(t') == kept + Added(kept, t.rows, pairs + {(id, role)})
  {
    hide ManagedShape, GroupsWellFormed, MappingsWellFormed, IdsBelow, Grants, Added, UniqueMemberships;
    var m := RoleMembership(t.rows[id], role);
    HeldIsStored(t, m);
    if (id, role) in pairs {
      assert pairs + {(id, role)} == pairs && Held(kept + Added(kept, t.rows, pairs), m) by {
        HeldOnceAdded(t.rows, kept, pairs, id, role);
      }
      return;
    }
    HeldUnlessNew(t.rows, kept, pairs, (id, role));
    AddedGrows(t.rows, kept, pairs, (id, role));
    if m !in t.memberships.Values {
      InsertMembershipConsistent(t, m, Scim(id));
      InsertMembershipGrants(t, m, Scim(id));
    }
  }

  predicate Covers(grants: set<Grant>, id: Id, role: Id) {
    exists g :: g in grants && g.owner == Scim(id) && GrantsRole(g, role)
  }

  /** The (row, role) pairs a reconciliation inserts: wanted and not covered by a managed grant. */
  predicate Uncovered(kept: set<Grant>, targets: map<Id, set<Id>>, id: Id, role: Id) {
    id in targets && role in targets[id] && !Covers(kept, id, role)
  }

  lemma ManagedGrantShape(t: Tables, g: Grant)
    requires Consistent(t) && g in Grants(t) && g.owner.Scim?
    ensures ManagedFor(g.membership, g.owner.row, t.rows)
  {
    var m :| m in t.memberships && g == Grant(t.memberships[m], OwnerOf(t.managed, m));
    assert m in t.managed;
  }

  /** Skipping covered roles changes nothing: they are among the kept grants. */
  lemma AddedIsMissing(t: Tables, targets: map<Id, set<Id>>, pairs: set<(Id, Id)>)
    requires Consistent(t) && targets.Keys <= t.rows.Keys
    requires forall p :: p in pairs <==> Uncovered(Grants(t), targets, p.0, p.1)
    ensures Added(Grants(t), t.rows, pairs) == Missing(Grants(t), t.rows, targets)
  {
    var kept := Grants(t);
    forall id, role | id in targets && role in targets[id] && !Held(kept, RoleMembership(t.rows[id], role))
      ensures (id, role) in pairs
    {
      forall g | g in kept && g.owner == Scim(id) ensures !GrantsRole(g, role) {
        ManagedGrantShape(t, g);
      }
    }
    forall g ensures g in Added(kept, t.rows, pairs) <==> g in Missing(kept, t.rows, targets) {
      if g in Added(kept, t.rows, pairs) {
        var p :| p in pairs && p.0 in t.rows && !Held(kept, RoleMembership(t.rows[p.0], p.1))
          && g == Grant(RoleMembership(t.rows[p.0], p.1), Scim(p.0));
        assert p.0 in targets && p.1 in targets[p.0];
      }
      if g in Missing(kept, t.rows, targets) {
        var id, role :| id in targets && id in t.rows && role in targets[id] && !Held(kept, RoleMembership(t.rows[id], role))
          && g == Grant(RoleMembership(t.rows[id], role), Scim(id));
        assert (id, role) in pairs;
      }
    }
  }

  // ---------------------------------------------------------------- the Viewer role

  lemma SeededConsistent(t: Tables, org: string)
    requires Consistent(t)
    ensures var t' := ListedOrSeeded(t, org); Consistent(t') && SameExceptGrants(t, t') && Grants(t') == Grants(t)
  {
    hide WithBuiltins, UniqueMemberships, UniqueLiveRows, ManagedShape, GroupsWellFormed, UniqueRoleNames, HasRoles, IsViewer;
    if !HasRoles(t.roles, org) {
      BuiltinsAdded(t.roles, org, t.nextId);
      var roles := WithBuiltins(t.roles, org, t.nextId);
      assert ListedOrSeeded(t, org) == t.(roles := roles, nextId := t.nextId + 3);
      assert MappingsWellFormed(t.mappings, roles);
    }
  }

  /** The organization's Viewer role, after seeding the built-in roles if it has none. */
  method ResolveViewerRole(t: Tables, org: string) returns (t': Tables, viewer: Option<Id>)
    requires Consistent(t)
    ensures t' == ListedOrSeeded(t, org)
    ensures viewer.None? <==> ViewerMissing(t, org)
    ensures viewer.Some? ==> IsViewer(t'.roles, org, viewer.value)
  {
    t' := ListedOrSeeded(t, org);
    var roles := Rows(t'.roles.Keys);
    viewer := None;
    var i := 0;
    while i < |roles| && viewer.None?
      invariant 0 <= i <= |roles|
      invariant viewer.Some? ==> IsViewer(t'.roles, org, viewer.value)
      invariant viewer.None? ==> forall k :: 0 <= k < i ==> !IsViewer(t'.roles, org, roles[k])
    {
      if t'.roles[roles[i]] == Role(org, VIEWER) {
        viewer := Some(roles[i]);
      }
      i := i + 1;
    }
    if !HasRoles(t.roles, org) {
      BuiltinsAdded(t.roles, org, t.nextId);
      assert t.nextId + 2 in roles;
    } else if viewer.None? {
      forall id | id in t.roles ensures !IsViewer(t.roles, org, id) {
        assert id in roles;
      }
    }
  }

  // ------------------------------------------------------------------- one user

  /**
   * Brings one user's managed memberships in line with the roles mapped to their
   * groups.  `deleted` counts the memberships it took away.
   */
  method ReconcileScimUserRoles(t0: Tables, id: Id)
    returns (r: Result<Tables, ReconcileError>, deleted: nat, ghost viewer: Id)
    requires Consistent(t0) && Live(t0.rows, id)
    ensures r.Err? <==> NeedsViewer(t0, id) && ViewerMissing(t0, t0.rows[id].org)
    ensures r.Ok? ==> ReconciledTo(t0, r.value, t0.rows[id].org, {id}, viewer)
    ensures r.Ok? ==> (deleted > 0 <==> Stale(Grants(t0), Targets(t0, {id}, viewer)) != {})
  {
    hide Consistent, Stale, Missing, Grants, NeedsViewer, Target, ViewerMissing;
    var t, target;
    deleted := 0;
    r, target, viewer := TargetRoles(t0, id);
    if r.Ok? {
      assert Targets(t0, {id}, viewer) == map[id := target];
      var covered;
      t, covered, deleted := DropStaleManaged(r.value, id, target);
      t := CreateMissingManaged(t, id, target, covered);
      r := Ok(t);
    }
  }

  /** The mapped roles, or Viewer for a user nothing else gives access to. */
  method TargetRoles(t0: Tables, id: Id)
    returns (r: Result<Tables, ReconcileError>, target: set<Id>, ghost viewer: Id)
    requires Consistent(t0) && Live(t0.rows, id)
    ensures r.Err? <==> NeedsViewer(t0, id) && ViewerMissing(t0, t0.rows[id].org)
    ensures r.Ok? ==> Consistent(r.value) && SameExceptGrants(t0, r.value) && Grants(r.value) == Grants(t0)
    ensures r.Ok? ==> RolesListedOrSeeded(t0, r.value, t0.rows[id].org)
    ensures r.Ok? ==> target == Target(t0, id, viewer)
    ensures r.Ok? && NeedsViewer(t0, id) ==> IsViewer(r.value.roles, t0.rows[id].org, viewer)
  {
    hide Consistent, Grants, MappedRoles, HasManualRole, ViewerMissing, Seeded;
    r := Ok(t0);
    viewer := 0;
    target := MappedRoles(t0.groups, t0.mappings, id);
    if target == {} {
      ManualRole(t0, id);
      var row := t0.rows[id];
      var manualExists := FindManualRole(RoleMembershipIds(t0, row.org, row.user), ManagedIds(t0.managed, id));
      if !manualExists {
        var t, found := ResolveViewerRole(t0, row.org);
        if found.None? {
          r := Err(MissingViewerRole(row.org));
        } else {
          SeededConsistent(t0, row.org);
          r, target, viewer := Ok(t), {found.value}, found.value;
        }
      }
    }
  }

  /** The role a membership grants; every managed membership grants one. */
  function RoleOf(t: Tables, m: Id): Id {
    if m in t.memberships && t.memberships[m].subject.RoleSubject? then t.memberships[m].subject.role else 0
  }

  function CoveredBy(t: Tables, kept: set<Id>): set<Id> {
    set m | m in kept :: RoleOf(t, m)
  }

  function ManagedIds(managed: map<Id, Id>, id: Id): set<Id> {
    set m | m in managed && managed[m] == id
  }

  /** Drops managed memberships whose role is not wanted; `covered` are the roles of the others. */
  method DropStaleManaged(t0: Tables, id: Id, target: set<Id>) returns (t: Tables, covered: set<Id>, deleted: nat)
    requires Consistent(t0)
    ensures Consistent(t) && SameExceptGrants(t0, t) && t.roles == t0.roles
    ensures Grants(t) == Grants(t0) - Stale(Grants(t0), map[id := target])
    ensures deleted > 0 <==> Stale(Grants(t0), map[id := target]) != {}
    ensures forall role :: role in covered <==> Covers(Grants(t), id, role)
  {
    hide Grants, Stale, StaleIds, StaleMark, DeleteMemberships, CoveredBy, Covers, ManagedShape;
    hide UniqueMemberships, UniqueLiveRows, GroupsWellFormed, MappingsWellFormed, UsersExist, IdsBelow;
    ghost var targets := map[id := target];
    var managedIds := Rows(ManagedIds(t0.managed, id));
    t := t0;
    covered, deleted := {}, 0;
    ghost var stale: set<Id>, kept: set<Id> := {}, {};
    DeleteNone(t0);
    var i := 0;
    while i < |managedIds|
      invariant 0 <= i <= |managedIds|
      invariant forall m :: m in stale || m in kept <==> m in managedIds[..i]
      invariant forall m :: m in stale ==> StaleMark(t0, m, targets)
      invariant forall m :: m in kept ==> !StaleMark(t0, m, targets)
      invariant covered == CoveredBy(t0, kept)
      invariant t == DeleteMemberships(t0, stale)
      invariant deleted > 0 <==> stale != {}
    {
      var m := managedIds[i];
      assert m in managedIds && m !in managedIds[..i] && managedIds[..i + 1] == managedIds[..i] + [m];
      OneManaged(t0, m, target, stale, kept);
      DeleteMore(t0, stale, {m});
      var subject := t.memberships[m].subject;
      if subject.RoleSubject? && subject.role in target {
        covered, kept := covered + {subject.role}, kept + {m};
      } else {
        t, stale, deleted := DeleteMemberships(t, {m}), stale + {m}, deleted + 1;
      }
      i := i + 1;
    }
    assert managedIds[..i] == managedIds;
    StaleIdsAre(t0, id, target, stale, kept);
    DroppedStale(t0, id, targets, stale, kept);
  }

  lemma DeleteNone(t: Tables)
    ensures DeleteMemberships(t, {}) == t && CoveredBy(t, {}) == {}
  {
    assert t.memberships - {} == t.memberships && t.managed - {} == t.managed;
  }

  lemma DeleteMore(t: Tables, a: set<Id>, b: set<Id>)
    ensures DeleteMemberships(DeleteMemberships(t, a), b) == DeleteMemberships(t, a + b)
  {
    assert t.memberships - a - b == t.memberships - (a + b) && t.managed - a - b == t.managed - (a + b);
  }

  /** One round of the loop over a row's managed memberships. */
  lemma OneManaged(t0: Tables, m: Id, target: set<Id>, stale: set<Id>, kept: set<Id>)
    requires ManagedShape(t0.memberships, t0.managed, t0.rows) && m in t0.managed && m !in stale
    ensures var t := DeleteMemberships(t0, stale);
      && m in t.memberships && t.memberships[m].subject.RoleSubject?
      && CoveredBy(t0, kept + {m}) == CoveredBy(t0, kept) + {t.memberships[m].subject.role}
      && (StaleMark(t0, m, map[t0.managed[m] := target]) <==> t.memberships[m].subject.role !in target)
  {
    assert ManagedFor(t0.memberships[m], t0.managed[m], t0.rows);
    assert RoleOf(t0, m) == t0.memberships[m].subject.role;
  }

  lemma StaleIdsAre(t: Tables, id: Id, target: set<Id>, stale: set<Id>, kept: set<Id>)
    requires forall m :: m in stale || m in kept <==> m in ManagedIds(t.managed, id)
    requires forall m :: m in stale ==> StaleMark(t, m, map[id := target])
    requires forall m :: m in kept ==> !StaleMark(t, m, map[id := target])
    ensures stale == StaleIds(t, map[id := target]) && kept == ManagedIds(t.managed, id) - stale
  {
  }

  lemma DroppedStale(t0: Tables, id: Id, targets: map<Id, set<Id>>, stale: set<Id>, kept: set<Id>)
    requires Consistent(t0) && stale == StaleIds(t0, targets)
    requires kept == ManagedIds(t0.managed, id) - stale
    ensures var t := DeleteMemberships(t0, stale);
      && Consistent(t)
      && Grants(t) == Grants(t0) - Stale(Grants(t0), targets)
      && (forall role :: role in CoveredBy(t0, kept) <==> Covers(Grants(t), id, role))
      && SameExceptGrants(t0, t) && t.roles == t0.roles
    ensures stale == {} <==> Stale(Grants(t0), targets) == {}
  {
    DeleteMembershipsConsistent(t0, stale);
    DeleteMembershipsGrants(t0, stale);
    StaleIdsGrants(t0, targets);
    CoveredRoles(t0, id, stale, kept);
    if m :| m in stale {
      assert Grant(t0.memberships[m], OwnerOf(t0.managed, m)) in GrantsOf(t0, stale);
    }
  }

  lemma CoveredRoles(t0: Tables, id: Id, stale: set<Id>, kept: set<Id>)
    requires Consistent(t0) && kept == ManagedIds(t0.managed, id) - stale
    ensures forall role :: role in CoveredBy(t0, kept) <==> Covers(Grants(DeleteMemberships(t0, stale)), id, role)
  {
    hide UniqueMemberships, UniqueLiveRows, GroupsWellFormed, MappingsWellFormed, UniqueRoleNames, UsersExist, IdsBelow;
    var t := DeleteMemberships(t0, stale);
    forall role | role in CoveredBy(t0, kept)
      ensures Covers(Grants(t), id, role)
    {
      var m :| m in kept && RoleOf(t0, m) == role;
      assert ManagedFor(t0.memberships[m], id, t0.rows);
      assert GrantOf(t, m) in Grants(t) && GrantsRole(GrantOf(t, m), role);
    }
    forall role | Covers(Grants(t), id, role)
      ensures role in CoveredBy(t0, kept)
    {
      var g :| g in Grants(t) && g.owner == Scim(id) && GrantsRole(g, role);
      var m :| m in t.memberships && g == Grant(t.memberships[m], OwnerOf(t.managed, m));
      assert m in kept && RoleOf(t0, m) == role;
    }
  }

  function PairsOf(id: Id, roles: set<Id>): set<(Id, Id)> {
    set role | role in roles :: (id, role)
  }

  /** Creates the wanted memberships nothing managed covers, recording each as managed. */
  method CreateMissingManaged(t0: Tables, id: Id, target: set<Id>, covered: set<Id>) returns (t: Tables)
    requires Consistent(t0) && Live(t0.rows, id)
    requires forall role :: role in covered <==> Covers(Grants(t0), id, role)
    ensures Consistent(t) && SameExceptGrants(t0, t) && t.roles == t0.roles
    ensures Grants(t) == Grants(t0) + Missing(Grants(t0), t0.rows, map[id := target])
  {
    hide Consistent, Grants, Added, UniqueLiveRows;
    ghost var kept := Grants(t0);
    var roles := Rows(target);
    ghost var done: set<Id> := {};
    t := t0;
    NothingAdded(kept, t0.rows, id);
    var j := 0;
    while j < |roles|
      invariant 0 <= j <= |roles|
      invariant forall role :: role in done <==> role in roles[..j] && role !in covered
      invariant Consistent(t) && SameExceptGrants(t0, t) && t.roles == t0.roles
      invariant Grants(t) == kept + Added(kept, t0.rows, PairsOf(id, done))
    {
      var role := roles[j];
      assert role !in roles[..j] && roles[..j + 1] == roles[..j] + [role];
      if role !in covered {
        PairsGrow(id, done, role);
        CreateManagedAdds(t, kept, PairsOf(id, done), id, role);
        t, done := CreateManaged(t, id, role), done + {role};
      }
      j := j + 1;
    }
    assert roles[..j] == roles;
    assert done == target - covered;
    UncoveredAdded(t0, id, target, covered);
  }

  lemma NothingAdded(kept: set<Grant>, rows: map<Id, ScimRow>, id: Id)
    requires id in rows
    ensures Added(kept, rows, PairsOf(id, {})) == {}
  {
  }

  lemma PairsGrow(id: Id, roles: set<Id>, role: Id)
    requires role !in roles
    ensures PairsOf(id, roles + {role}) == PairsOf(id, roles) + {(id, role)} && (id, role) !in PairsOf(id, roles)
  {
  }

  lemma UncoveredAdded(t0: Tables, id: Id, target: set<Id>, covered: set<Id>)
    requires Consistent(t0) && id in t0.rows
    requires forall role :: role in covered <==> Covers(Grants(t0), id, role)
    ensures Added(Grants(t0), t0.rows, PairsOf(id, target - covered)) == Missing(Grants(t0), t0.rows, map[id := target])
  {
    var targets := map[id := target];
    var pairs := PairsOf(id, target - covered);
    forall p ensures p in pairs <==> Uncovered(Grants(t0), targets, p.0, p.1) {
      assert p in pairs <==> p.0 == id && p.1 in target && !Covers(Grants(t0), id, p.1);
    }
    AddedIsMissing(t0, targets, pairs);
  }

  /** The ids of a user's role memberships in an organization. */
  function RoleMembershipIds(t: Tables, org: string, user: Id): set<Id> {
    set m | m in t.memberships && t.memberships[m].org == org && t.memberships[m].user == user && t.memberships[m].subject.RoleSubject?
  }

  /** Is one of the memberships not managed? */
  method FindManualRole(existing: set<Id>, managedIds: set<Id>) returns (manualExists: bool)
    ensures manualExists <==> !(existing <= managedIds)
  {
    var ids := Rows(existing);
    manualExists := false;
    var i := 0;
    while i < |ids| && !manualExists
      invariant 0 <= i <= |ids|
      invariant manualExists ==> !(existing <= managedIds)
      invariant !manualExists ==> forall k :: 0 <= k < i ==> ids[k] in managedIds
    {
      assert ids[i] in ids;
      manualExists := ids[i] !in managedIds;
      i := i + 1;
    }
    if !manualExists {
      forall m | m in existing ensures m in managedIds { assert m in ids; }
    }
  }

  lemma ManualRole(t: Tables, id: Id)
    requires id in t.rows
    ensures var row := t.rows[id];
      HasManualRole(Grants(t), row, id) <==> !(RoleMembershipIds(t, row.org, row.user) <= ManagedIds(t.managed, id))
  {
    var row := t.rows[id];
    if HasManualRole(Grants(t), row, id) {
      var g :| g in Grants(t) && Belongs(g, row.org, row.user) && g.membership.subject.RoleSubject? && g.owner != Scim(id);
      var m :| m in t.memberships && g == Grant(t.memberships[m], OwnerOf(t.managed, m));
      assert m in RoleMembershipIds(t, row.org, row.user) && m !in ManagedIds(t.managed, id);
    }
    if m :| m in RoleMembershipIds(t, row.org, row.user) && m !in ManagedIds(t.managed, id) {
      assert GrantOf(t, m) in Grants(t) && Belongs(GrantOf(t, m), row.org, row.user);
    }
  }

  // ------------------------------------------------------------------ many users

  function AsSet<T(==)>(q: seq<T>): set<T> {
    set x | x in q
  }

  /** The active users among the given ids, which may repeat or be missing. */
  function ActiveIn(rows: map<Id, ScimRow>, org: string, ids: set<Id>): set<Id> {
    set id | id in ids && Active(rows, id) && rows[id].org == org
  }

  method Deduplicate(ids: seq<Id>) returns (deduped: seq<Id>)
    ensures Distinct(deduped) && forall id :: id in deduped <==> id in ids
  {
    deduped := [];
    var seen: set<Id> := {};
    for i := 0 to |ids|
      invariant Distinct(deduped)
      invariant forall id :: id in seen <==> id in ids[..i]
      invariant forall id :: id in deduped <==> id in seen
    {
      assert ids[..i + 1] == ids[..i] + [ids[i]];
      if ids[i] !in seen {
        seen := seen + {ids[i]};
        deduped := deduped + [ids[i]];
      }
    }
    assert ids[..|ids|] == ids;
  }

  /** Live rows of the organization, whichever of the ids still exist; then only the active ones. */
  method ActiveUsers(rows: map<Id, ScimRow>, org: string, deduped: seq<Id>) returns (active: seq<Id>)
    ensures Distinct(active) && forall id :: id in active <==> id in ActiveIn(rows, org, AsSet(deduped))
  {
    var scimUsers := Rows(set id: Id | id in deduped && Live(rows, id) && rows[id].org == org);
    active := [];
    for i := 0 to |scimUsers|
      invariant Distinct(active)
      invariant forall id :: id in active <==> id in scimUsers[..i] && Active(rows, id)
    {
      var u := scimUsers[i];
      assert u in scimUsers && u !in scimUsers[..i] && scimUsers[..i + 1] == scimUsers[..i] + [u];
      if rows[u].active {
        active := active + [u];
      }
    }
    assert scimUsers[..|scimUsers|] == scimUsers;
  }

  /** One user's stale managed memberships, and the target roles the others cover. */
  method SplitManaged(t: Tables, id: Id, managed: set<Id>, target: set<Id>) returns (stale: seq<Id>, covered: set<Id>)
    requires Consistent(t) && managed == ManagedIds(t.managed, id)
    ensures forall m :: m in stale <==> m in managed && StaleMark(t, m, map[id := target])
    ensures forall role :: role in covered <==> role in target && Covers(Grants(t), id, role)
  {
    hide Grants, StaleMark, CoveredBy, Covers, ManagedShape;
    hide UniqueMemberships, UniqueLiveRows, GroupsWellFormed, MappingsWellFormed, UsersExist, IdsBelow;
    var ids := Rows(managed);
    stale, covered := [], {};
    ghost var kept: set<Id> := {};
    DeleteNone(t);
    for i := 0 to |ids|
      invariant forall m :: m in stale || m in kept <==> m in ids[..i]
      invariant forall m :: m in stale ==> StaleMark(t, m, map[id := target])
      invariant forall m :: m in kept ==> !StaleMark(t, m, map[id := target])
      invariant covered == CoveredBy(t, kept)
    {
      var m := ids[i];
      assert m in ids && ids[..i + 1] == ids[..i] + [m];
      OneManaged(t, m, target, {}, kept);
      var subject := t.memberships[m].subject;
      if subject.RoleSubject? && subject.role in target {
        covered, kept := covered + {subject.role}, kept + {m};
      } else {
        stale := stale + [m];
      }
    }
    assert ids[..|ids|] == ids;
    CoveredTargets(t, id, target, kept);
  }

  lemma CoveredTargets(t: Tables, id: Id, target: set<Id>, kept: set<Id>)
    requires Consistent(t)
    requires forall m :: m in kept <==> m in ManagedIds(t.managed, id) && !StaleMark(t, m, map[id := target])
    ensures forall role :: role in CoveredBy(t, kept) <==> role in target && Covers(Grants(t), id, role)
  {
    hide UniqueMemberships, UniqueLiveRows, GroupsWellFormed, MappingsWellFormed, UniqueRoleNames, UsersExist, IdsBelow;
    forall role | role in CoveredBy(t, kept)
      ensures role in target && Covers(Grants(t), id, role)
    {
      var m :| m in kept && RoleOf(t, m) == role;
      assert ManagedFor(t.memberships[m], id, t.rows);
      assert GrantOf(t, m) in Grants(t) && GrantsRole(GrantOf(t, m), role);
    }
    forall role | role in target && Covers(Grants(t), id, role)
      ensures role in CoveredBy(t, kept)
    {
      var g :| g in Grants(t) && g.owner == Scim(id) && GrantsRole(g, role);
      var m :| m in t.memberships && g == Grant(t.memberships[m], OwnerOf(t.managed, m));
      assert m in kept && RoleOf(t, m) == role;
    }
  }

  /** What the bulk reconciler reads up front, for all users in a few queries. */
  datatype Prefetched = Prefetched(
    mapped: map<Id, set<Id>>, managed: map<Id, set<Id>>, roleMemberships: map<Id, set<Id>>)

  predicate PrefetchedFor(t: Tables, ids: seq<Id>, pre: Prefetched) {
    && (forall id :: id in ids ==> id in pre.mapped && pre.mapped[id] == MappedRoles(t.groups, t.mappings, id))
    && (forall id :: id in ids ==> id in pre.managed && pre.managed[id] == ManagedIds(t.managed, id))
    && (forall id :: id in ids ==> id in t.rows && id in pre.mapped)
    && (forall id :: id in ids && pre.mapped[id] == {} ==>
          && t.rows[id].user in pre.roleMemberships
          && pre.roleMemberships[t.rows[id].user] == RoleMembershipIds(t, t.rows[id].org, t.rows[id].user))
  }

  method Prefetch(t: Tables, org: string, active: seq<Id>) returns (pre: Prefetched)
    requires forall id :: id in active ==> id in t.rows && t.rows[id].org == org
    ensures PrefetchedFor(t, active, pre)
  {
    hide MappedRoles, ManagedIds, RoleMembershipIds;
    var mapped := map id | id in active :: MappedRoles(t.groups, t.mappings, id);
    var managed := map id | id in active :: ManagedIds(t.managed, id);
    var unmapped: seq<Id> := [];
    for i := 0 to |active|
      invariant forall id :: id in active[..i] && mapped[id] == {} ==> t.rows[id].user in unmapped
    {
      assert active[i] in active && active[..i + 1] == active[..i] + [active[i]];
      if mapped[active[i]] == {} {
        unmapped := unmapped + [t.rows[active[i]].user];
      }
    }
    assert active[..|active|] == active;
    pre := Prefetched(mapped, managed, map user | user in unmapped :: RoleMembershipIds(t, org, user));
  }

  /** The organization's Viewer role, looked up only when a first user needs it. */
  datatype Viewer = Unresolved | Resolved(role: Id)

  /** One user's target roles; `t` differs from the tables read up front by seeded roles only. */
  method BulkTarget(t0: Tables, t: Tables, pre: Prefetched, id: Id, known: Viewer)
    returns (r: Result<Tables, ReconcileError>, target: set<Id>, viewer: Viewer)
    requires Consistent(t0) && Consistent(t) && t.rows == t0.rows && PrefetchedFor(t0, [id], pre)
    requires known.Resolved? ==> IsViewer(t.roles, t0.rows[id].org, known.role)
    requires known.Unresolved? ==> t == t0
    ensures r.Err? <==> known.Unresolved? && NeedsViewer(t0, id) && ViewerMissing(t0, t0.rows[id].org)
    ensures r.Ok? ==> Consistent(r.value) && SameExceptGrants(t, r.value)
    ensures r.Ok? ==> r.value.memberships == t.memberships && r.value.managed == t.managed
    ensures r.Ok? && viewer != known ==> r.value.roles == ListedOrSeeded(t0, t0.rows[id].org).roles
    ensures r.Ok? && viewer == known ==> r.value == t
    ensures r.Ok? ==> target == Target(t0, id, if viewer.Resolved? then viewer.role else 0)
    ensures r.Ok? ==> viewer == known || (known.Unresolved? && viewer.Resolved? && NeedsViewer(t0, id))
    ensures r.Ok? && NeedsViewer(t0, id) ==> viewer.Resolved?
    ensures r.Ok? && viewer.Resolved? ==> IsViewer(r.value.roles, t0.rows[id].org, viewer.role)
  {
    hide Consistent, Grants, MappedRoles, HasManualRole, ViewerMissing, RoleMembershipIds, ManagedIds;
    assert id in [id];
    r, viewer, target := Ok(t), known, pre.mapped[id];
    if target == {} {
      ManualRole(t0, id);
      var row := t0.rows[id];
      var manualExists := FindManualRole(pre.roleMemberships[row.user], pre.managed[id]);
      if !manualExists {
        if viewer.Unresolved? {
          var seeded, found := ResolveViewerRole(t, row.org);
          if found.None? {
            r := Err(MissingViewerRole(row.org));
            return;
          }
          SeededConsistent(t, row.org);
          r, viewer := Ok(seeded), Resolved(found.value);
        }
        target := {viewer.role};
      }
    }
  }

  lemma TargetsExtend(t: Tables, ids: set<Id>, id: Id, viewer: Id)
    ensures Targets(t, ids + {id}, viewer) == Targets(t, ids, viewer)[id := Target(t, id, viewer)]
  {
  }

  lemma TargetsIgnoreViewer(t: Tables, ids: set<Id>, v: Id, w: Id)
    requires forall id :: id in ids ==> !NeedsViewer(t, id)
    ensures Targets(t, ids, v) == Targets(t, ids, w)
  {
  }

  /** What the queues hold after the users in `targets` were planned. */
  ghost predicate Planned(t: Tables, targets: map<Id, set<Id>>, stale: seq<Id>, queued: seq<(Id, Id)>) {
    && (forall m :: m in stale <==> m in StaleIds(t, targets))
    && (forall p :: p in queued <==> Uncovered(Grants(t), targets, p.0, p.1))
  }

  lemma PlannedUser(t: Tables, targets: map<Id, set<Id>>, stale: seq<Id>, queued: seq<(Id, Id)>,
                    id: Id, target: set<Id>, stale': seq<Id>, queued': seq<(Id, Id)>)
    requires Consistent(t) && id !in targets && Planned(t, targets, stale, queued)
    requires forall m :: m in stale' <==> m in ManagedIds(t.managed, id) && StaleMark(t, m, map[id := target])
    requires forall p :: p in queued' <==> p.0 == id && p.1 in target && !Covers(Grants(t), id, p.1)
    ensures Planned(t, targets[id := target], stale + stale', queued + queued')
  {
    hide Consistent, Covers, Grants;
    OneMoreStale(t, targets, id, target);
    var all := targets[id := target];
    forall p: (Id, Id) ensures Uncovered(Grants(t), all, p.0, p.1) <==> p in queued || p in queued' {
    }
    hide StaleIds, StaleMark, Uncovered;
  }

  lemma OneMoreStale(t: Tables, targets: map<Id, set<Id>>, id: Id, target: set<Id>)
    requires id !in targets
    ensures StaleIds(t, targets[id := target]) == StaleIds(t, targets) + set m | m in ManagedIds(t.managed, id) && StaleMark(t, m, map[id := target])
  {
  }

  /** Where the planning stands after the users in `done`: `t` differs from `t0` by seeded roles at most. */
  ghost predicate PlannedSoFar(
      t0: Tables, org: string, t: Tables, known: Viewer, viewer: Id, done: set<Id>, stale: seq<Id>, queued: seq<(Id, Id)>) {
    && Consistent(t) && SameExceptGrants(t0, t)
    && t.memberships == t0.memberships && t.managed == t0.managed && RolesListedOrSeeded(t0, t, org)
    && (known.Unresolved? ==> t == t0 && viewer == 0 && forall id :: id in done ==> !NeedsViewer(t0, id))
    && (known.Resolved? ==> known.role == viewer && IsViewer(t.roles, org, viewer) && !ViewerMissing(t0, org))
    && Planned(t0, Targets(t0, done, viewer), stale, queued)
  }

  /** One user's round of the planning loop. */
  method PlanUser(
      t0: Tables, org: string, t: Tables, pre: Prefetched, id: Id, known: Viewer, stale: seq<Id>, queued: seq<(Id, Id)>,
      ghost viewer: Id, ghost done: set<Id>)
    returns (r: Result<Tables, ReconcileError>, known': Viewer, stale': seq<Id>, queued': seq<(Id, Id)>, ghost viewer': Id)
    requires Consistent(t0) && PlannedSoFar(t0, org, t, known, viewer, done, stale, queued) && id !in done
    requires id in t0.rows && t0.rows[id].org == org && PrefetchedFor(t0, [id], pre)
    ensures r.Err? <==> known.Unresolved? && NeedsViewer(t0, id) && ViewerMissing(t0, org)
    ensures r.Ok? ==> PlannedSoFar(t0, org, r.value, known', viewer', done + {id}, stale', queued')
  {
    hide Consistent, Grants, StaleIds, StaleMark, Uncovered, Target, Planned, Covers, ManagedIds, NeedsViewer, ViewerMissing, IsViewer;
    var target;
    assert id in [id];
    stale', queued', viewer' := stale, queued, viewer;
    r, target, known' := BulkTarget(t0, t, pre, id, known);
    if r.Err? {
      return;
    }
    if known.Unresolved? && known'.Resolved? {
      TargetsIgnoreViewer(t0, done, 0, known'.role);
      viewer' := known'.role;
    }
    TargetsExtend(t0, done, id, viewer');
    var more, covered := SplitManaged(t0, id, pre.managed[id], target);
    var moreQueued := QueueUncovered(id, target, covered);
    PlannedUser(t0, Targets(t0, done, viewer'), stale, queued, id, target, more, moreQueued);
    stale', queued' := stale + more, queued + moreQueued;
  }

  /** Planning the active users one after the other. */
  method PlanUsers(t0: Tables, org: string, active: seq<Id>)
    returns (r: Result<Tables, ReconcileError>, stale: seq<Id>, queued: seq<(Id, Id)>, ghost viewer: Id)
    requires Consistent(t0) && Distinct(active) && forall id :: id in active ==> Active(t0.rows, id) && t0.rows[id].org == org
    ensures r.Err? <==> ViewerMissing(t0, org) && exists id :: id in active && NeedsViewer(t0, id)
    ensures r.Ok? ==> Consistent(r.value) && SameExceptGrants(t0, r.value)
    ensures r.Ok? ==> r.value.memberships == t0.memberships && r.value.managed == t0.managed
    ensures r.Ok? ==> RolesListedOrSeeded(t0, r.value, org)
    ensures r.Ok? && (exists id :: id in active && NeedsViewer(t0, id)) ==> IsViewer(r.value.roles, org, viewer)
    ensures r.Ok? ==> Planned(t0, Targets(t0, AsSet(active), viewer), stale, queued)
  {
    hide Consistent, PrefetchedFor, PlannedSoFar, NeedsViewer, ViewerMissing, SameExceptGrants, RolesListedOrSeeded, IsViewer, Planned, Targets;
    var pre := Prefetch(t0, org, active);
    var t, known := t0, Unresolved;
    r, viewer, stale, queued := Ok(t), 0, [], [];
    PlanningStarts(t0, org);
    for i := 0 to |active|
      invariant r == Ok(t) && PlannedSoFar(t0, org, t, known, viewer, AsSet(active[..i]), stale, queued)
    {
      var id := active[i];
      assert id in active && id !in active[..i] && active[..i + 1] == active[..i] + [id];
      assert AsSet(active[..i + 1]) == AsSet(active[..i]) + {id};
      PrefetchedOne(t0, active, pre, id);
      r, known, stale, queued, viewer := PlanUser(t0, org, t, pre, id, known, stale, queued, viewer, AsSet(active[..i]));
      if r.Err? {
        return;
      }
      t := r.value;
    }
    assert active[..|active|] == active;
    PlanningEnds(t0, org, t, known, viewer, AsSet(active), stale, queued);
  }

  lemma PlanningStarts(t0: Tables, org: string)
    requires Consistent(t0)
    ensures PlannedSoFar(t0, org, t0, Unresolved, 0, AsSet<Id>([]), [], [])
  {
    hide Consistent;
    NothingPlanned(t0);
    assert Targets(t0, AsSet<Id>([]), 0) == map[];
  }

  /** What the finished plan means for the users it is about. */
  lemma PlanningEnds(
      t0: Tables, org: string, t: Tables, known: Viewer, viewer: Id, done: set<Id>, stale: seq<Id>, queued: seq<(Id, Id)>)
    requires PlannedSoFar(t0, org, t, known, viewer, done, stale, queued)
    ensures Consistent(t) && SameExceptGrants(t0, t) && t.memberships == t0.memberships && t.managed == t0.managed
    ensures RolesListedOrSeeded(t0, t, org) && Planned(t0, Targets(t0, done, viewer), stale, queued)
    ensures (exists id :: id in done && NeedsViewer(t0, id)) ==> IsViewer(t.roles, org, viewer) && !ViewerMissing(t0, org)
  {
    hide Consistent, Planned, NeedsViewer, ViewerMissing, IsViewer;
  }

  lemma PrefetchedOne(t: Tables, ids: seq<Id>, pre: Prefetched, id: Id)
    requires PrefetchedFor(t, ids, pre) && id in ids
    ensures PrefetchedFor(t, [id], pre) && id in pre.managed && pre.managed[id] == ManagedIds(t.managed, id)
  {
  }

  lemma NothingPlanned(t: Tables)
    ensures Planned(t, map[], [], [])
  {
  }

  method QueueUncovered(id: Id, target: set<Id>, covered: set<Id>) returns (queued: seq<(Id, Id)>)
    ensures forall p :: p in queued <==> p.0 == id && p.1 in target && p.1 !in covered
  {
    var roles := Rows(target);
    queued := [];
    for i := 0 to |roles|
      invariant forall p :: p in queued <==> p.0 == id && p.1 in roles[..i] && p.1 !in covered
    {
      assert roles[..i + 1] == roles[..i] + [roles[i]];
      if roles[i] !in covered {
        queued := queued + [(id, roles[i])];
      }
    }
    assert roles[..|roles|] == roles;
  }

  /** Inserting in bulk; a grant that exists stays as it is and is not adopted. */
  method BulkCreateManaged(t0: Tables, queued: seq<(Id, Id)>) returns (t: Tables)
    requires Consistent(t0) && forall p :: p in queued ==> Live(t0.rows, p.0)
    ensures Consistent(t) && SameExceptGrants(t0, t) && t.roles == t0.roles
    ensures Grants(t) == Grants(t0) + Added(Grants(t0), t0.rows, AsSet(queued))
  {
    hide Consistent, Grants, Added, UniqueLiveRows, AsSet;
    ghost var kept := Grants(t0);
    t := t0;
    NoneAdded(kept, t0.rows);
    for j := 0 to |queued|
      invariant Consistent(t) && SameExceptGrants(t0, t) && t.roles == t0.roles
      invariant forall p :: p in AsSet(queued[..j]) ==> p in queued
      invariant Grants(t) == kept + Added(kept, t0.rows, AsSet(queued[..j]))
    {
      var p := queued[j];
      PrefixSet(queued, j);
      CreateManagedAdds(t, kept, AsSet(queued[..j]), p.0, p.1);
      t := CreateManaged(t, p.0, p.1);
    }
    assert queued[..|queued|] == queued;
  }

  lemma NoneAdded(kept: set<Grant>, rows: map<Id, ScimRow>)
    ensures AsSet<(Id, Id)>([]) == {} && Added(kept, rows, {}) == {}
  {
  }

  lemma PrefixSet<T>(q: seq<T>, j: nat)
    requires j < |q|
    ensures q[j] in q && AsSet(q[..j + 1]) == AsSet(q[..j]) + {q[j]}
  {
    assert q[..j + 1] == q[..j] + [q[j]];
  }

  /** Deleting the stale memberships and inserting the queued ones reconciles every planned user. */
  lemma PlanReconciles(t: Tables, targets: map<Id, set<Id>>, stale: seq<Id>, queued: seq<(Id, Id)>)
    requires Consistent(t) && targets.Keys <= t.rows.Keys && Planned(t, targets, stale, queued)
    ensures var t' := DeleteMemberships(t, AsSet(stale)); var kept := Grants(t) - Stale(Grants(t), targets);
      && Consistent(t') && SameExceptGrants(t, t') && Grants(t') == kept
      && (forall p :: p in queued ==> p.0 in targets)
      && Added(kept, t.rows, AsSet(queued)) == Missing(kept, t.rows, targets)
  {
    var t' := DeleteMemberships(t, AsSet(stale));
    assert AsSet(stale) == StaleIds(t, targets);
    DeleteMembershipsConsistent(t, AsSet(stale));
    DeleteMembershipsGrants(t, AsSet(stale));
    StaleIdsGrants(t, targets);
    forall p ensures p in AsSet(queued) <==> Uncovered(Grants(t'), targets, p.0, p.1) {
      if Uncovered(Grants(t'), targets, p.0, p.1) || Uncovered(Grants(t), targets, p.0, p.1) {
        CoversKept(Grants(t), targets, p.0, p.1);
      }
    }
    AddedIsMissing(t', targets, AsSet(queued));
  }

  lemma PlannedFrame(t: Tables, t': Tables, targets: map<Id, set<Id>>, stale: seq<Id>, queued: seq<(Id, Id)>)
    requires t'.memberships == t.memberships && t'.managed == t.managed
    ensures Grants(t') == Grants(t)
    ensures Planned(t, targets, stale, queued) ==> Planned(t', targets, stale, queued)
  {
    assert StaleIds(t', targets) == StaleIds(t, targets);
  }

  /** A managed grant of a wanted role is not stale. */
  lemma CoversKept(grants: set<Grant>, targets: map<Id, set<Id>>, id: Id, role: Id)
    requires id in targets && role in targets[id]
    ensures Covers(grants - Stale(grants, targets), id, role) <==> Covers(grants, id, role)
  {
    if Covers(grants, id, role) {
      var g :| g in grants && g.owner == Scim(id) && GrantsRole(g, role);
      assert g in grants - Stale(grants, targets);
    }
  }

  /**
   * The bulk form: the same meaning as reconciling each distinct active user,
   * with one delete and one insert for all of them.
   */
  method ReconcileScimUsersById(t0: Tables, org: string, ids: seq<Id>)
    returns (r: Result<Tables, ReconcileError>, ghost viewer: Id)
    requires Consistent(t0)
    ensures r.Err? <==> ViewerMissing(t0, org) && exists id :: id in ActiveIn(t0.rows, org, AsSet(ids)) && NeedsViewer(t0, id)
    ensures r.Ok? ==> ReconciledTo(t0, r.value, org, ActiveIn(t0.rows, org, AsSet(ids)), viewer)
  {
    hide Consistent, Grants, Stale, Missing, Added, NeedsViewer, ViewerMissing, Planned, UniqueLiveRows, Target;
    var deduped := Deduplicate(ids);
    var active := ActiveUsers(t0.rows, org, deduped);
    var stale, queued;
    r, stale, queued, viewer := PlanUsers(t0, org, active);
    ghost var all := ActiveIn(t0.rows, org, AsSet(ids));
    assert AsSet(active) == all;
    if r.Ok? {
      ghost var targets := Targets(t0, all, viewer);
      var t := r.value;
      PlannedFrame(t0, t, targets, stale, queued);
      PlanReconciles(t, targets, stale, queued);
      t := DeleteMemberships(t, AsSet(stale));
      t := BulkCreateManaged(t, queued);
      assert Grants(t) == Reconciled(Grants(t0), t0.rows, targets);
      r := Ok(t);
    }
  }
}
