/**
 * What the two reconcilers promise about each other: the bulk form is the same
 * as the simple form on each user in any order, a second run changes nothing,
 * human grants survive, and afterwards every reconciled user has exactly the
 * access their groups call for.
 */
module ReconcileTheorems {
  import opened Common
  import opened ScimTables
  import opened ScimReconcile

  // --------------------------------------------------------------- sets of grants

  predicate ManagedGrants(grants: set<Grant>, rows: map<Id, ScimRow>) {
    forall g :: g in grants && g.owner.Scim? ==> ManagedFor(g.membership, g.owner.row, rows)
  }

  predicate LiveIds(rows: map<Id, ScimRow>, ids: set<Id>) {
    forall id :: id in ids ==> Live(rows, id)
  }

  lemma GrantsAreManagedFor(t: Tables)
    requires Consistent(t)
    ensures ManagedGrants(Grants(t), t.rows)
  {
    forall g | g in Grants(t) && g.owner.Scim? ensures ManagedFor(g.membership, g.owner.row, t.rows) {
      ManagedGrantShape(t, g);
    }
  }

  /** Whether row `id` lacks a membership does not depend on other rows' managed grants. */
  ghost predicate SameForRow(a: set<Grant>, b: set<Grant>, row: ScimRow) {
    forall g :: Belongs(g, row.org, row.user) ==> (g in a <==> g in b)
  }

  /** A membership that fits two live rows: they are the same row. */
  lemma OneLiveRow(rows: map<Id, ScimRow>, k: Id, id: Id)
    requires UniqueLiveRows(rows) && Live(rows, k) && Live(rows, id)
    ensures rows[k].org == rows[id].org && rows[k].user == rows[id].user ==> k == id
  {
    assert SameLiveUser(rows[k], rows[id]) ==> k == id;
  }

  lemma OtherRowsUntouched(grants: set<Grant>, rows: map<Id, ScimRow>, targets: map<Id, set<Id>>, id: Id)
    requires UniqueLiveRows(rows) && ManagedGrants(grants, rows) && LiveIds(rows, targets.Keys)
    requires Live(rows, id) && id !in targets
    ensures SameForRow(grants, Reconciled(grants, rows, targets), rows[id])
    ensures SameForRow(grants, grants - Stale(grants, targets), rows[id])
  {
    forall g, k | Belongs(g, rows[id].org, rows[id].user) && g.owner == Scim(k) && k in targets
      ensures !ManagedFor(g.membership, k, rows)
    {
      OneLiveRow(rows, k, id);
    }
    var kept := grants - Stale(grants, targets);
    forall g | g in Missing(kept, rows, targets) ensures g.owner.Scim? && g.owner.row in targets && ManagedFor(g.membership, g.owner.row, rows) {
    }
  }

  lemma HeldSame(a: set<Grant>, b: set<Grant>, row: ScimRow, role: Id)
    requires SameForRow(a, b, row)
    ensures Held(a, RoleMembership(row, role)) <==> Held(b, RoleMembership(row, role))
  {
    if Held(a, RoleMembership(row, role)) {
      var g :| g in a && g.membership == RoleMembership(row, role);
      assert Belongs(g, row.org, row.user);
    }
    if Held(b, RoleMembership(row, role)) {
      var g :| g in b && g.membership == RoleMembership(row, role);
      assert Belongs(g, row.org, row.user);
    }
  }

  /** Reconciling some rows and then others is reconciling all of them at once. */
  lemma ReconciledInTwo(grants: set<Grant>, rows: map<Id, ScimRow>, first: map<Id, set<Id>>, second: map<Id, set<Id>>)
    requires UniqueLiveRows(rows) && ManagedGrants(grants, rows)
    requires LiveIds(rows, first.Keys) && LiveIds(rows, second.Keys) && first.Keys !! second.Keys
    ensures Reconciled(Reconciled(grants, rows, first), rows, second) == Reconciled(grants, rows, first + second)
  {
    var mid := Reconciled(grants, rows, first);
    var kept1 := grants - Stale(grants, first);
    var kept2 := mid - Stale(mid, second);
    var kept := grants - Stale(grants, first + second);
    var made1 := Missing(kept1, rows, first);
    assert kept2 == kept + made1;
    assert ManagedGrants(kept1, rows) && kept == kept1 - Stale(kept1, second);
    MissingOfOthers(kept1, rows, first, second);
    assert Missing(kept, rows, first) == made1;
    assert ManagedGrants(kept2, rows);
    MadeForOthers(kept, rows, first, second, made1);
    assert Missing(kept2, rows, second) == Missing(kept, rows, second);
    MissingOfBoth(kept, rows, first, second);
  }

  lemma MissingOfOthers(grants: set<Grant>, rows: map<Id, ScimRow>, first: map<Id, set<Id>>, second: map<Id, set<Id>>)
    requires UniqueLiveRows(rows) && ManagedGrants(grants, rows)
    requires LiveIds(rows, first.Keys) && LiveIds(rows, second.Keys) && first.Keys !! second.Keys
    ensures Missing(grants - Stale(grants, second), rows, first) == Missing(grants, rows, first)
  {
    forall id, role | id in first
      ensures Held(grants - Stale(grants, second), RoleMembership(rows[id], role)) <==> Held(grants, RoleMembership(rows[id], role))
    {
      OtherRowsUntouched(grants, rows, second, id);
      HeldSame(grants, grants - Stale(grants, second), rows[id], role);
    }
  }

  lemma MadeForOthers(grants: set<Grant>, rows: map<Id, ScimRow>, first: map<Id, set<Id>>, second: map<Id, set<Id>>, made: set<Grant>)
    requires UniqueLiveRows(rows) && LiveIds(rows, first.Keys) && LiveIds(rows, second.Keys) && first.Keys !! second.Keys
    requires made == Missing(grants, rows, first)
    ensures Missing(grants + made, rows, second) == Missing(grants, rows, second)
  {
    forall id, role | id in second
      ensures Held(grants + made, RoleMembership(rows[id], role)) <==> Held(grants, RoleMembership(rows[id], role))
    {
      forall g | g in made ensures !Belongs(g, rows[id].org, rows[id].user) {
        OneLiveRow(rows, g.owner.row, id);
      }
      HeldSame(grants, grants + made, rows[id], role);
    }
  }

  lemma MissingOfBoth(kept: set<Grant>, rows: map<Id, ScimRow>, first: map<Id, set<Id>>, second: map<Id, set<Id>>)
    requires first.Keys !! second.Keys
    ensures Missing(kept, rows, first + second) == Missing(kept, rows, first) + Missing(kept, rows, second)
  {
    var both := first + second;
    forall g ensures g in Missing(kept, rows, both) <==> g in Missing(kept, rows, first) + Missing(kept, rows, second) {
      if g in Missing(kept, rows, first) {
        var id, role :| id in first && id in rows && role in first[id] && !Held(kept, RoleMembership(rows[id], role))
          && g == Grant(RoleMembership(rows[id], role), Scim(id));
        assert id in both && role in both[id];
      }
      if g in Missing(kept, rows, second) {
        var id, role :| id in second && id in rows && role in second[id] && !Held(kept, RoleMembership(rows[id], role))
          && g == Grant(RoleMembership(rows[id], role), Scim(id));
        assert id in both && role in both[id];
      }
    }
  }

  // ------------------------------------------------------------- targets are stable

  /** Reconciling any rows changes no row's target: the fallback looks at what it does not own. */
  lemma TargetUnchanged(t: Tables, t': Tables, org: string, ids: set<Id>, viewer: Id, id: Id, v: Id)
    requires Consistent(t) && LiveIds(t.rows, ids) && Live(t.rows, id) && ReconciledTo(t, t', org, ids, viewer)
    ensures NeedsViewer(t', id) <==> NeedsViewer(t, id)
    ensures Target(t', id, v) == Target(t, id, v)
  {
    hide Consistent, Grants;
    LiveRowsAreUnique(t);
    GrantsAreManagedFor(t);
    var row := t.rows[id];
    var targets := Targets(t, ids, viewer);
    forall g | Belongs(g, row.org, row.user) && g.owner != Scim(id)
      ensures g in Grants(t) <==> g in Grants(t')
    {
      if g.owner.Scim? && g.owner.row in targets {
        OneLiveRow(t.rows, g.owner.row, id);
      }
    }
  }

  lemma LiveRowsAreUnique(t: Tables)
    requires Consistent(t)
    ensures UniqueLiveRows(t.rows)
  {
  }

  lemma TargetsUnchanged(t: Tables, t': Tables, org: string, ids: set<Id>, viewer: Id, others: set<Id>, v: Id)
    requires Consistent(t) && LiveIds(t.rows, ids) && LiveIds(t.rows, others) && ReconciledTo(t, t', org, ids, viewer)
    ensures Targets(t', others, v) == Targets(t, others, v)
  {
    forall id | id in others ensures Target(t', id, v) == Target(t, id, v) {
      TargetUnchanged(t, t', org, ids, viewer, id, v);
    }
  }

  // -------------------------------------------------------- bulk refines simple

  /** Single-user reconciliations of `order`, one after the other, each with the fallback role it found itself. */
  ghost predicate Chain(states: seq<Tables>, org: string, order: seq<Id>, viewers: seq<Id>) {
    && |states| == |order| + 1 && |viewers| == |order|
    && forall i :: 0 <= i < |order| ==> ReconciledTo(states[i], states[i + 1], org, {order[i]}, viewers[i])
  }

  lemma OneViewer(t: Tables, org: string, v: Id, w: Id)
    requires Consistent(t) && IsViewer(t.roles, org, v) && IsViewer(t.roles, org, w)
    ensures v == w
  {
  }

  /** Rows that do not fall back are reconciled alike for any fallback role. */
  lemma AnyViewer(t: Tables, t': Tables, org: string, ids: set<Id>, v: Id, w: Id)
    requires ReconciledTo(t, t', org, ids, v) && forall id :: id in ids ==> !NeedsViewer(t, id)
    ensures ReconciledTo(t, t', org, ids, w)
  {
    hide Consistent, Grants, Reconciled, NeedsViewer, SameExceptGrants, RolesListedOrSeeded, Target;
    TargetsIgnoreViewer(t, ids, v, w);
  }

  lemma ViewerStays(t: Tables, t': Tables, org: string, ids: set<Id>, viewer: Id, v: Id)
    requires ReconciledTo(t, t', org, ids, viewer) && IsViewer(t.roles, org, v)
    ensures IsViewer(t'.roles, org, v)
  {
    hide Consistent, Grants, Reconciled, Targets;
  }

  /** The step may as well have used the role that is the Viewer role after it. */
  lemma StepWithViewer(t: Tables, t': Tables, org: string, id: Id, viewer: Id, v: Id)
    requires ReconciledTo(t, t', org, {id}, viewer) && (NeedsViewer(t, id) ==> IsViewer(t'.roles, org, v))
    ensures ReconciledTo(t, t', org, {id}, v)
  {
    hide Consistent, Grants, Reconciled, NeedsViewer, IsViewer;
    if NeedsViewer(t, id) {
      assert id in {id};
      OneViewer(t', org, viewer, v);
    } else {
      AnyViewer(t, t', org, {id}, viewer, v);
    }
  }

  /** Steps with one fallback role, which only those that need it use. */
  ghost predicate UniformChain(states: seq<Tables>, org: string, order: seq<Id>, viewer: Id) {
    && |states| == |order| + 1
    && forall i :: 0 <= i < |order| ==> ReconciledTo(states[i], states[i + 1], org, {order[i]}, viewer)
  }

  /** Roles once there stay there. */
  lemma {:induction false} RolesStay(states: seq<Tables>, org: string, order: seq<Id>, viewers: seq<Id>, i: nat, role: Id)
    requires Chain(states, org, order, viewers) && i <= |order| && role in states[i].roles
    ensures role in states[|order|].roles && states[|order|].roles[role] == states[i].roles[role]
    decreases |order| - i
  {
    hide Consistent, Grants, Reconciled, Targets, NeedsViewer, RolesListedOrSeeded;
    if i < |order| {
      assert ReconciledTo(states[i], states[i + 1], org, {order[i]}, viewers[i]);
      RolesStay(states, org, order, viewers, i + 1, role);
    }
  }

  /** Whether a user needs the fallback does not change along the chain. */
  lemma {:induction false} NeedsStay(states: seq<Tables>, org: string, order: seq<Id>, viewers: seq<Id>, i: nat, id: Id)
    requires Chain(states, org, order, viewers) && Consistent(states[0]) && i <= |order|
    requires LiveIds(states[0].rows, AsSet(order)) && Live(states[0].rows, id)
    ensures Consistent(states[i]) && states[i].rows == states[0].rows && (NeedsViewer(states[i], id) <==> NeedsViewer(states[0], id))
    decreases i
  {
    hide Consistent, Grants, Reconciled, Targets, NeedsViewer, RolesListedOrSeeded;
    if i > 0 {
      NeedsStay(states, org, order, viewers, i - 1, id);
      var before := order[i - 1];
      assert before in AsSet(order) && ReconciledTo(states[i - 1], states[i], org, {before}, viewers[i - 1]);
      TargetUnchanged(states[i - 1], states[i], org, {before}, viewers[i - 1], id, 0);
    }
  }

  /** However each call finds its Viewer role, all find the same one: the Viewer role there is at the end. */
  lemma ChainHasOneViewer(states: seq<Tables>, org: string, order: seq<Id>, viewers: seq<Id>) returns (viewer: Id)
    requires Chain(states, org, order, viewers) && Consistent(states[0]) && LiveIds(states[0].rows, AsSet(order))
    ensures UniformChain(states, org, order, viewer)
    ensures (exists id :: id in order && NeedsViewer(states[0], id)) ==> IsViewer(states[|order|].roles, org, viewer)
  {
    hide Consistent, NeedsViewer, ReconciledTo, LiveIds, SameLiveUser;
    var last := states[|order|];
    viewer := 0;
    if v :| v in last.roles && IsViewer(last.roles, org, v) {
      viewer := v;
    }
    forall i | 0 <= i < |order|
      ensures ReconciledTo(states[i], states[i + 1], org, {order[i]}, viewer)
      ensures NeedsViewer(states[0], order[i]) ==> IsViewer(last.roles, org, viewer)
    {
      StepFindsTheViewer(states, org, order, viewers, i, viewer);
    }
  }

  lemma StepFindsTheViewer(states: seq<Tables>, org: string, order: seq<Id>, viewers: seq<Id>, i: nat, viewer: Id)
    requires Chain(states, org, order, viewers) && Consistent(states[0]) && LiveIds(states[0].rows, AsSet(order)) && i < |order|
    requires (exists v :: IsViewer(states[|order|].roles, org, v)) ==> IsViewer(states[|order|].roles, org, viewer)
    ensures ReconciledTo(states[i], states[i + 1], org, {order[i]}, viewer)
    ensures NeedsViewer(states[0], order[i]) ==> IsViewer(states[|order|].roles, org, viewer)
  {
    hide Consistent, NeedsViewer, SameExceptGrants, RolesListedOrSeeded, Reconciled, Targets, Grants;
    var id, last := order[i], states[|order|];
    assert ReconciledTo(states[i], states[i + 1], org, {id}, viewers[i]) && id in AsSet(order);
    NeedsStay(states, org, order, viewers, i, id);
    NeedsStay(states, org, order, viewers, |order|, id);
    if NeedsViewer(states[i], id) {
      assert id in {id} && IsViewer(states[i + 1].roles, org, viewers[i]);
      RolesStay(states, org, order, viewers, i + 1, viewers[i]);
      assert IsViewer(last.roles, org, viewers[i]);
      OneViewer(last, org, viewer, viewers[i]);
    }
    StepWithViewer(states[i], states[i + 1], org, id, viewers[i], viewer);
  }

  /** Reconciling one user after the other is reconciling all of them at once, in any order. */
  lemma {:induction false} BulkIsEachInTurn(states: seq<Tables>, org: string, order: seq<Id>, viewer: Id)
    requires UniformChain(states, org, order, viewer) && Consistent(states[0])
    requires Distinct(order) && LiveIds(states[0].rows, AsSet(order))
    ensures var t, t' := states[0], states[|order|];
      && Consistent(t') && t'.rows == t.rows
      && Grants(t') == Reconciled(Grants(t), t.rows, Targets(t, AsSet(order), viewer))
    decreases |order|
  {
    hide Consistent, Grants, Target, Stale, Missing;
    var t := states[0];
    if order == [] {
      NothingToReconcile(t, viewer);
    } else {
      var id, rest := order[0], order[1..];
      var t1 := states[1];
      assert AsSet(order) == {id} + AsSet(rest) && id !in rest;
      assert forall i :: 0 <= i < |rest| ==> states[1..][i] == states[i + 1] && rest[i] == order[i + 1];
      BulkIsEachInTurn(states[1..], org, rest, viewer);
      TargetsUnchanged(t, t1, org, {id}, viewer, AsSet(rest), viewer);
      GrantsAreManagedFor(t);
      LiveRowsAreUnique(t);
      var first, second := Targets(t, {id}, viewer), Targets(t, AsSet(rest), viewer);
      ReconciledInTwo(Grants(t), t.rows, first, second);
      assert first + second == Targets(t, AsSet(order), viewer);
    }
  }

  lemma NothingToReconcile(t: Tables, viewer: Id)
    ensures Reconciled(Grants(t), t.rows, Targets(t, AsSet<Id>([]), viewer)) == Grants(t)
  {
  }

  // ------------------------------------------------------------ up to seeded role ids

  /** The foreign key from memberships to the roles of their organization. */
  predicate RolesExist(t: Tables) {
    forall m :: m in t.memberships ==> RoleStored(t.roles, t.memberships[m])
  }

  predicate RoleStored(roles: map<Id, Role>, m: Membership) {
    m.subject.RoleSubject? ==> m.subject.role in roles && roles[m.subject.role].org == m.org
  }

  /** The grant with role v in place of role w. */
  function Renamed(g: Grant, w: Id, v: Id): Grant {
    if GrantsRole(g, w) then g.(membership := g.membership.(subject := RoleSubject(v))) else g
  }

  function AllRenamed(grants: set<Grant>, w: Id, v: Id): set<Grant> {
    set g | g in grants :: Renamed(g, w, v)
  }

  predicate NoGrantOf(grants: set<Grant>, role: Id) {
    forall g :: g in grants ==> !GrantsRole(g, role)
  }

  lemma NothingRenamed(grants: set<Grant>, role: Id)
    ensures AllRenamed(grants, role, role) == grants
  {
    assert forall g :: g in grants ==> Renamed(g, role, role) == g;
  }

  /** Two targets that differ only in which of two unused roles they call Viewer. */
  predicate TargetsDifferBy(a: map<Id, set<Id>>, b: map<Id, set<Id>>, w: Id, v: Id) {
    && a.Keys == b.Keys
    && forall id :: id in a ==> (a[id] == {w} && b[id] == {v}) || (a[id] == b[id] && w !in a[id] && v !in a[id])
  }

  lemma ViewerNotMapped(t: Tables, ids: set<Id>, w: Id, v: Id)
    requires Consistent(t) && w !in t.roles && v !in t.roles
    ensures TargetsDifferBy(Targets(t, ids, w), Targets(t, ids, v), w, v)
  {
    hide NeedsViewer;
  }

  lemma ReconciledRenamed(grants: set<Grant>, rows: map<Id, ScimRow>, a: map<Id, set<Id>>, b: map<Id, set<Id>>, w: Id, v: Id)
    requires TargetsDifferBy(a, b, w, v) && NoGrantOf(grants, w) && NoGrantOf(grants, v)
    ensures Reconciled(grants, rows, b) == AllRenamed(Reconciled(grants, rows, a), w, v)
  {
    hide Missing, Stale;
    SameStale(grants, a, b, w, v);
    var kept := grants - Stale(grants, a);
    MissingRenamed(kept, rows, a, b, w, v);
    assert forall g :: g in kept ==> Renamed(g, w, v) == g;
    forall g ensures g in kept + Missing(kept, rows, b) <==> g in AllRenamed(kept + Missing(kept, rows, a), w, v) {
      if g in kept {
        assert Renamed(g, w, v) == g;
      }
      if g in AllRenamed(Missing(kept, rows, a), w, v) {
        var h :| h in Missing(kept, rows, a) && g == Renamed(h, w, v);
        assert h in kept + Missing(kept, rows, a);
      }
    }
  }

  lemma SameStale(grants: set<Grant>, a: map<Id, set<Id>>, b: map<Id, set<Id>>, w: Id, v: Id)
    requires TargetsDifferBy(a, b, w, v) && NoGrantOf(grants, w) && NoGrantOf(grants, v)
    ensures Stale(grants, a) == Stale(grants, b)
  {
    forall g | g in grants ensures IsStale(g, a) <==> IsStale(g, b) {
      assert !GrantsRole(g, w) && !GrantsRole(g, v);
    }
  }

  lemma MissingRenamed(kept: set<Grant>, rows: map<Id, ScimRow>, a: map<Id, set<Id>>, b: map<Id, set<Id>>, w: Id, v: Id)
    requires TargetsDifferBy(a, b, w, v) && NoGrantOf(kept, w) && NoGrantOf(kept, v)
    ensures Missing(kept, rows, b) == AllRenamed(Missing(kept, rows, a), w, v)
  {
    forall row: ScimRow ensures !Held(kept, RoleMembership(row, w)) && !Held(kept, RoleMembership(row, v)) {
    }
    forall g ensures g in Missing(kept, rows, b) <==> g in AllRenamed(Missing(kept, rows, a), w, v) {
      if g in Missing(kept, rows, b) {
        var id, role :| id in b && id in rows && role in b[id] && !Held(kept, RoleMembership(rows[id], role))
          && g == Grant(RoleMembership(rows[id], role), Scim(id));
        var other := if a[id] == {w} && b[id] == {v} then w else role;
        var h := Grant(RoleMembership(rows[id], other), Scim(id));
        assert h in Missing(kept, rows, a) && Renamed(h, w, v) == g;
      }
      if g in AllRenamed(Missing(kept, rows, a), w, v) {
        var h :| h in Missing(kept, rows, a) && g == Renamed(h, w, v);
        var id, role :| id in a && id in rows && role in a[id] && !Held(kept, RoleMembership(rows[id], role))
          && h == Grant(RoleMembership(rows[id], role), Scim(id));
        var other := if a[id] == {w} && b[id] == {v} then v else role;
        assert other in b[id] && g == Grant(RoleMembership(rows[id], other), Scim(id));
      }
    }
  }

  lemma UnusedRole(t: Tables, role: Id)
    requires RolesExist(t) && role !in t.roles
    ensures NoGrantOf(Grants(t), role)
  {
  }

  /**
   * Both forms, from the same tables and each with the Viewer roles it finds itself,
   * leave the same memberships with the same owners; if they seeded the built-in
   * roles, up to the ids these got.
   */
  lemma BulkRefinesSimple(states: seq<Tables>, viewers: seq<Id>, bulk: Tables, org: string, ids: seq<Id>, order: seq<Id>, w: Id) returns (v: Id)
    requires Chain(states, org, order, viewers) && Consistent(states[0]) && RolesExist(states[0]) && Distinct(order)
    requires AsSet(order) == ActiveIn(states[0].rows, org, AsSet(ids))
    requires ReconciledTo(states[0], bulk, org, ActiveIn(states[0].rows, org, AsSet(ids)), w)
    ensures Grants(states[|order|]) == AllRenamed(Grants(bulk), w, v)
    ensures v == w || (!HasRoles(states[0].roles, org) && IsViewer(states[|order|].roles, org, v) && IsViewer(bulk.roles, org, w))
  {
    var t, last := states[0], states[|order|];
    hide Consistent, Grants, NeedsViewer, Target, Reconciled, RolesExist, Chain, UniformChain, AllRenamed, TargetsDifferBy, SameExceptGrants;
    v := ChainHasOneViewer(states, org, order, viewers);
    BulkIsEachInTurn(states, org, order, v);
    NothingRenamed(Grants(bulk), w);
    if id :| id in order && NeedsViewer(t, id) {
      assert id in AsSet(order);
      if HasRoles(t.roles, org) {
        FirstRolesStay(states, org, order, viewers, w);
        OneViewer(last, org, v, w);
      } else {
        if v in t.roles { OldRole(states, org, order, viewers, v); }
        if w in t.roles { BulkOldRole(t, bulk, org, AsSet(order), w, w); }
        ViewerNotMapped(t, AsSet(order), w, v);
        UnusedRole(t, v);
        UnusedRole(t, w);
        ReconciledRenamed(Grants(t), t.rows, Targets(t, AsSet(order), w), Targets(t, AsSet(order), v), w, v);
      }
    } else {
      forall id | id in AsSet(order) ensures !NeedsViewer(t, id) {
        assert id in order;
      }
      TargetsIgnoreViewer(t, AsSet(order), v, w);
      v := w;
    }
  }

  lemma FirstRolesStay(states: seq<Tables>, org: string, order: seq<Id>, viewers: seq<Id>, role: Id)
    requires Chain(states, org, order, viewers) && role in states[0].roles
    ensures |states| == |order| + 1 && role in states[|order|].roles && states[|order|].roles[role] == states[0].roles[role]
  {
    RolesStay(states, org, order, viewers, 0, role);
  }

  lemma BulkOldRole(t: Tables, t': Tables, org: string, ids: set<Id>, viewer: Id, v: Id)
    requires ReconciledTo(t, t', org, ids, viewer) && v in t.roles && IsViewer(t'.roles, org, v)
    ensures HasRoles(t.roles, org)
  {
    hide Consistent, Grants, Reconciled, Targets;
    assert t.roles[v].org == org;
  }

  /** A Viewer role that was there before belonged to the organization before. */
  lemma OldRole(states: seq<Tables>, org: string, order: seq<Id>, viewers: seq<Id>, v: Id)
    requires Chain(states, org, order, viewers) && v in states[0].roles && IsViewer(states[|order|].roles, org, v)
    ensures HasRoles(states[0].roles, org)
  {
    hide Chain;
    FirstRolesStay(states, org, order, viewers, v);
    assert states[0].roles[v].org == org;
  }

  // ---------------------------------------------------------- both methods side by side

  /** Reconciling this user fails for want of a Viewer role. */
  ghost predicate Fails(t: Tables, org: string, id: Id) {
    NeedsViewer(t, id) && ViewerMissing(t, org)
  }

  /** The simple form on one user after the other. */
  method ReconcileEach(t0: Tables, org: string, order: seq<Id>)
    returns (r: Result<Tables, ReconcileError>, ghost states: seq<Tables>, ghost viewers: seq<Id>)
    requires Consistent(t0) && Distinct(order) && forall id :: id in order ==> Live(t0.rows, id) && t0.rows[id].org == org
    ensures r.Err? <==> exists id :: id in order && Fails(t0, org, id)
    ensures r.Ok? ==> Chain(states, org, order, viewers) && states[0] == t0 && r.value == states[|order|]
  {
    hide Consistent, NeedsViewer, ViewerMissing, Grants, Targets, Reconciled, RolesListedOrSeeded;
    var t := t0;
    states, viewers := [t0], [];
    for i := 0 to |order|
      invariant |states| == i + 1 && |viewers| == i && states[0] == t0 && states[i] == t
      invariant forall k :: 0 <= k < i ==> ReconciledTo(states[k], states[k + 1], org, {order[k]}, viewers[k])
      invariant Consistent(t) && t.rows == t0.rows
      invariant forall k :: 0 <= k < |order| ==> (Fails(t, org, order[k]) <==> Fails(t0, org, order[k]))
      invariant forall k :: 0 <= k < i ==> !Fails(t0, org, order[k])
    {
      assert order[i] in order && Fails(t, org, order[i]) == Fails(t0, org, order[i]);
      var deleted;
      ghost var viewer;
      r, deleted, viewer := ReconcileScimUserRoles(t, order[i]);
      if r.Err? {
        return;
      }
      forall k | 0 <= k < |order| ensures Fails(r.value, org, order[k]) <==> Fails(t0, org, order[k]) {
        assert order[k] in order;
        FailsTogether(t, r.value, org, {order[i]}, viewer, order[k]);
      }
      t, states, viewers := r.value, states + [r.value], viewers + [viewer];
    }
    r := Ok(t);
  }

  /** The two reconcilers on the same users: they fail together, and otherwise agree up to seeded role ids. */
  method ReconcileBothWays(t0: Tables, org: string, ids: seq<Id>)
    returns (simple: Result<Tables, ReconcileError>, bulk: Result<Tables, ReconcileError>, ghost w: Id, ghost v: Id)
    requires Consistent(t0) && RolesExist(t0)
    ensures simple.Ok? <==> bulk.Ok?
    ensures simple.Ok? ==> Grants(simple.value) == AllRenamed(Grants(bulk.value), w, v)
    ensures simple.Ok? && v != w ==>
      !HasRoles(t0.roles, org) && IsViewer(simple.value.roles, org, v) && IsViewer(bulk.value.roles, org, w)
  {
    hide Consistent, NeedsViewer, ViewerMissing, Grants, ReconciledTo, RolesExist, AllRenamed, Chain, IsViewer, HasRoles;
    var order := Rows(ActiveIn(t0.rows, org, AsSet(ids)));
    assert AsSet(order) == ActiveIn(t0.rows, org, AsSet(ids));
    ghost var states, viewers;
    simple, states, viewers := ReconcileEach(t0, org, order);
    bulk, w := ReconcileScimUsersById(t0, org, ids);
    v := w;
    if simple.Ok? && bulk.Ok? {
      v := BulkRefinesSimple(states, viewers, bulk.value, org, ids, order, w);
    }
  }

  /** The bulk form fails exactly when the simple form fails on one of the users. */
  lemma FailsTogether(t: Tables, t': Tables, org: string, ids: set<Id>, viewer: Id, id: Id)
    requires Consistent(t) && LiveIds(t.rows, ids) && Live(t.rows, id) && ReconciledTo(t, t', org, ids, viewer)
    requires t.rows[id].org == org
    ensures NeedsViewer(t', id) && ViewerMissing(t', org) <==> NeedsViewer(t, id) && ViewerMissing(t, org)
  {
    hide Consistent, Grants, Targets, Reconciled, NeedsViewer, Live, LiveIds;
    TargetUnchanged(t, t', org, ids, viewer, id, viewer);
    if !HasRoles(t.roles, org) && t'.roles == Seeded(t, org).roles {
      assert IsViewer(t'.roles, org, t.nextId + 2);
    }
  }

  // ------------------------------------------------------------------ idempotence

  lemma ReconciledAgain(grants: set<Grant>, rows: map<Id, ScimRow>, targets: map<Id, set<Id>>)
    requires targets.Keys <= rows.Keys
    ensures var once := Reconciled(grants, rows, targets);
      Stale(once, targets) == {} && Missing(once, rows, targets) == {} && Reconciled(once, rows, targets) == once
  {
    var kept := grants - Stale(grants, targets);
    var once := Reconciled(grants, rows, targets);
    forall id, role | id in targets && role in targets[id] ensures Held(once, RoleMembership(rows[id], role)) {
      if Held(kept, RoleMembership(rows[id], role)) {
        var g :| g in kept && g.membership == RoleMembership(rows[id], role);
        assert g in once;
      } else {
        assert Grant(RoleMembership(rows[id], role), Scim(id)) in once;
      }
    }
  }

  /** Reconciling the same users again, with whatever Viewer role is found then, deletes nothing and creates nothing. */
  lemma SecondRunChangesNothing(t: Tables, t': Tables, t'': Tables, org: string, ids: set<Id>, v: Id, w: Id)
    requires Consistent(t) && LiveIds(t.rows, ids)
    requires ReconciledTo(t, t', org, ids, v) && ReconciledTo(t', t'', org, ids, w)
    ensures Grants(t'') == Grants(t') && Stale(Grants(t'), Targets(t', ids, w)) == {}
  {
    hide Consistent, Grants, Target, Reconciled, Stale, NeedsViewer;
    TargetsUnchanged(t, t', org, ids, v, ids, w);
    forall id | id in ids ensures NeedsViewer(t', id) <==> NeedsViewer(t, id) {
      TargetUnchanged(t, t', org, ids, v, id, w);
    }
    if id :| id in ids && NeedsViewer(t, id) {
      ViewerStays(t', t'', org, ids, w, v);
      OneViewer(t'', org, v, w);
    } else {
      TargetsIgnoreViewer(t, ids, v, w);
    }
    ReconciledAgain(Grants(t), t.rows, Targets(t, ids, w));
  }

  // --------------------------------------------------------------- what users have

  /** The view that reconciliation maintains for one user. */
  ghost predicate InView(t: Tables, id: Id) {
    id in t.rows &&
    var mapped := MappedRoles(t.groups, t.mappings, id);
    && (forall role :: role in mapped ==> Held(Grants(t), RoleMembership(t.rows[id], role)))
    && (forall g :: g in Grants(t) && g.owner == Scim(id) ==> OwnedRole(t, id, g))
    && HoldsARole(Grants(t), t.rows[id])
  }

  /** A managed grant's role is mapped, or it is Viewer because nothing is. */
  predicate OwnedRole(t: Tables, id: Id, g: Grant)
    requires id in t.rows
  {
    g.membership.subject.RoleSubject? &&
    var mapped := MappedRoles(t.groups, t.mappings, id);
    if mapped == {} then IsViewer(t.roles, t.rows[id].org, g.membership.subject.role)
    else g.membership.subject.role in mapped
  }

  predicate HoldsARole(grants: set<Grant>, row: ScimRow) {
    exists g :: g in grants && Belongs(g, row.org, row.user) && g.membership.subject.RoleSubject?
  }

  lemma WantedIsHeld(grants: set<Grant>, rows: map<Id, ScimRow>, targets: map<Id, set<Id>>, id: Id, role: Id)
    requires id in targets && id in rows && role in targets[id]
    ensures Held(Reconciled(grants, rows, targets), RoleMembership(rows[id], role))
  {
    var kept := grants - Stale(grants, targets);
    if Held(kept, RoleMembership(rows[id], role)) {
      var g :| g in kept && g.membership == RoleMembership(rows[id], role);
      assert g in Reconciled(grants, rows, targets);
    } else {
      assert Grant(RoleMembership(rows[id], role), Scim(id)) in Reconciled(grants, rows, targets);
    }
  }

  lemma OwnedIsWanted(grants: set<Grant>, rows: map<Id, ScimRow>, targets: map<Id, set<Id>>, id: Id, g: Grant)
    requires id in targets && g in Reconciled(grants, rows, targets) && g.owner == Scim(id)
    ensures g.membership.subject.RoleSubject? && g.membership.subject.role in targets[id]
  {
  }

  /** After its reconciliation a user has exactly the access the groups and mappings call for. */
  lemma ReconciledIsInView(t: Tables, t': Tables, org: string, ids: set<Id>, viewer: Id, id: Id)
    requires Consistent(t) && LiveIds(t.rows, ids) && ReconciledTo(t, t', org, ids, viewer)
    requires id in ids && t.rows[id].org == org
    ensures InView(t', id)
  {
    hide Consistent, Grants, Stale, Missing, Reconciled;
    var targets := Targets(t, ids, viewer);
    var grants, row := Grants(t'), t.rows[id];
    forall role | role in targets[id] ensures Held(grants, RoleMembership(row, role)) {
      WantedIsHeld(Grants(t), t.rows, targets, id, role);
    }
    forall g | g in grants && g.owner == Scim(id) ensures OwnedRole(t', id, g) {
      OwnedIsWanted(Grants(t), t.rows, targets, id, g);
    }
    assert HoldsARole(grants, row) by {
      if role :| role in targets[id] {
        var g :| g in grants && g.membership == RoleMembership(row, role);
      } else {
        var g :| g in Grants(t) && Belongs(g, row.org, row.user) && g.membership.subject.RoleSubject? && g.owner != Scim(id);
        ManualGrantKept(t, t', org, ids, viewer, id, g);
      }
    }
  }

  /** A grant of the user that the row does not own survives its reconciliation. */
  lemma ManualGrantKept(t: Tables, t': Tables, org: string, ids: set<Id>, viewer: Id, id: Id, g: Grant)
    requires Consistent(t) && LiveIds(t.rows, ids) && ReconciledTo(t, t', org, ids, viewer)
    requires Live(t.rows, id) && g in Grants(t) && Belongs(g, t.rows[id].org, t.rows[id].user) && g.owner != Scim(id)
    ensures g in Grants(t')
  {
    GrantsAreManagedFor(t);
    if g.owner.Scim? && g.owner.row in ids {
      OneLiveRow(t.rows, g.owner.row, id);
    }
  }

  /** A human's grant is never deleted, adopted or added. */
  lemma HumanGrantsUntouched(t: Tables, t': Tables, org: string, ids: set<Id>, viewer: Id, g: Grant)
    requires ReconciledTo(t, t', org, ids, viewer) && g.owner == Human
    ensures g in Grants(t') <==> g in Grants(t)
  {
  }

  /** Another row's managed grants are untouched as well. */
  lemma OtherRowsGrantsUntouched(t: Tables, t': Tables, org: string, ids: set<Id>, viewer: Id, g: Grant)
    requires ReconciledTo(t, t', org, ids, viewer) && g.owner.Scim? && g.owner.row !in ids
    ensures g in Grants(t') <==> g in Grants(t)
  {
  }
}
