/**
 * The audit events of every SCIM user, and what can end a human's grant, over
 * whole runs of transactions.
 */
module AuditTheorems {
  import opened Common
  import opened ScimTables
  import opened ScimReconcile
  import opened ReconcileTheorems
  import opened ScimOperations
  import opened AccessOperations
  import opened RoleOperations
  import opened ScimTheorems

  // ---------------------------------------------------------------- the audit trace

  /** What an auditor believes about one SCIM user after reading a prefix of the events. */
  datatype Belief = NeverProvisioned | HasAccess | LostAccess | Gone | Contradicted

  predicate About(e: Event, id: Id) {
    e.row == id
  }

  function Learn(belief: Belief, e: Event): Belief {
    match e
    case Provisioned(_) => if belief == NeverProvisioned || belief == LostAccess then HasAccess else Contradicted
    case Deprovisioned(_, Deactivated) => if belief == HasAccess then LostAccess else Contradicted
    case Deprovisioned(_, Deleted) => if belief == Gone || belief == Contradicted then Contradicted else Gone
  }

  function BeliefAfter(outbox: seq<Event>, id: Id): Belief
    decreases |outbox|
  {
    if outbox == [] then NeverProvisioned
    else
      var before := BeliefAfter(outbox[..|outbox| - 1], id);
      if About(outbox[|outbox| - 1], id) then Learn(before, outbox[|outbox| - 1]) else before
  }

  /** The trace of a row matches its state. */
  predicate Audited(rows: map<Id, ScimRow>, outbox: seq<Event>, id: Id) {
    var belief := BeliefAfter(outbox, id);
    if id !in rows then belief == NeverProvisioned
    else if rows[id].deleted then belief == Gone && !rows[id].active
    else if rows[id].active then belief == HasAccess
    else belief == NeverProvisioned || belief == LostAccess
  }

  ghost predicate AllAudited(t: Tables) {
    forall id :: Audited(t.rows, t.outbox, id)
  }

  lemma OneMoreEvent(outbox: seq<Event>, e: Event, id: Id)
    ensures BeliefAfter(outbox + [e], id) == if About(e, id) then Learn(BeliefAfter(outbox, id), e) else BeliefAfter(outbox, id)
  {
    assert (outbox + [e])[..|outbox|] == outbox;
  }

  lemma EventsOfOneTransaction(t: Tables, op: UserOp, id: Id)
    ensures EventsOf(t, op) == [] || exists e :: EventsOf(t, op) == [e]
    ensures var before := BeliefAfter(t.outbox, id);
      BeliefAfter(t.outbox + EventsOf(t, op), id)
      == if EventsOf(t, op) != [] && About(EventsOf(t, op)[0], id) then Learn(before, EventsOf(t, op)[0]) else before
  {
    hide NewRowId;
    if EventsOf(t, op) == [] {
      assert t.outbox + [] == t.outbox;
    } else {
      OneMoreEvent(t.outbox, EventsOf(t, op)[0], id);
      assert EventsOf(t, op) == [EventsOf(t, op)[0]];
    }
  }

  lemma UserTransactionAudited(t: Tables, op: UserOp, t': Tables, viewer: Id, id: Id)
    requires Consistent(t) && UserCommits(t, op, t', viewer) && Audited(t.rows, t.outbox, id)
    ensures Audited(t'.rows, t'.outbox, id)
  {
    hide Consistent, UserWrite, NewRowId, BeliefAfter, NameFree, LiveRowFree, ResolvesTo, Reconciled;
    UserWriteTables(t, op);
    EventsOfOneTransaction(t, op, id);
    if op.Provision? { NewIdUnknown(t, op); }
  }

  lemma NewIdUnknown(t: Tables, op: UserOp)
    requires Consistent(t) && op.Provision?
    ensures NewRowId(t, op.input, op.user) !in t.rows
  {
  }

  /** Every transaction keeps every row's trace in step with the row. */
  lemma TransactionAudited(t: Tables, x: Transaction, t': Tables)
    requires Consistent(t) && Commits(t, x, t') && AllAudited(t)
    ensures AllAudited(t')
  {
    hide Consistent, Audited, UserCommits, GroupCommits, AccessWrite, RolesAfter, MappingsAfter, NextIdAfter, RoleOpAllowed;
    match x
    case OfUser(op) =>
      var viewer :| UserCommits(t, op, t', viewer);
      forall id ensures Audited(t'.rows, t'.outbox, id) {
        UserTransactionAudited(t, op, t', viewer, id);
      }
    case OfGroup(op) =>
      var viewer :| GroupCommits(t, op, t', viewer);
      GroupTransactionsSayNothing(t, op, t', viewer);
    case OfAccess(op) =>
      ConsistentGroups(t);
      AccessWriteKeepsDirectory(t, op);
    case OfRole(_) =>
  }

  lemma {:induction false} RunsAreAudited(t: Tables, xs: seq<Transaction>, t': Tables)
    requires Consistent(t) && AllAudited(t) && Runs(t, xs, t')
    ensures AllAudited(t')
    decreases |xs|
  {
    hide Consistent, AllAudited, Commits;
    if xs != [] {
      var mid :| Commits(t, xs[0], mid) && Runs(mid, xs[1..], t');
      CommitConsistent(t, xs[0], mid);
      TransactionAudited(t, xs[0], mid);
      RunsAreAudited(mid, xs[1..], t');
    }
  }

  /** A database before the first SCIM request: any users, roles and human memberships. */
  predicate Untouched(t: Tables) {
    Consistent(t) && t.rows == map[] && t.groups == map[] && t.mappings == map[] && t.managed == map[] && t.outbox == []
  }

  /** From there on, after any run in which no human takes memberships away, everything holds together. */
  lemma EveryRunIsInOrder(t: Tables, xs: seq<Transaction>, t': Tables)
    requires Untouched(t) && Runs(t, xs, t') && forall x :: x in xs ==> !RemovedByHuman(x)
    ensures Consistent(t') && ViewHolds(t') && AllAudited(t')
  {
    assert ViewHolds(t) by { hide InView; }
    assert AllAudited(t);
    RunsKeepView(t, xs, t');
    RunsAreAudited(t, xs, t');
  }

  // ------------------------------------------------------ reading the trace directly

  lemma {:induction false} BeliefOfPrefix(outbox: seq<Event>, id: Id, n: nat)
    requires n <= |outbox| && BeliefAfter(outbox, id) != Contradicted
    ensures BeliefAfter(outbox[..n], id) != Contradicted
    decreases |outbox|
  {
    if n < |outbox| {
      assert outbox[..|outbox| - 1][..n] == outbox[..n];
      BeliefOfPrefix(outbox[..|outbox| - 1], id, n);
    } else {
      assert outbox[..n] == outbox;
    }
  }

  /** Without an event about the row in between, the belief does not change. */
  lemma {:induction false} BeliefUnchanged(outbox: seq<Event>, id: Id, i: nat, j: nat)
    requires i <= j <= |outbox| && forall k :: i <= k < j ==> !About(outbox[k], id)
    ensures BeliefAfter(outbox[..j], id) == BeliefAfter(outbox[..i], id)
    decreases j
  {
    if i < j {
      assert outbox[..j][..j - 1] == outbox[..j - 1];
      BeliefUnchanged(outbox, id, i, j - 1);
    }
  }

  lemma LearnedAt(outbox: seq<Event>, id: Id, i: nat)
    requires i < |outbox| && About(outbox[i], id)
    ensures BeliefAfter(outbox[..i + 1], id) == Learn(BeliefAfter(outbox[..i], id), outbox[i])
  {
    assert outbox[..i + 1][..i] == outbox[..i];
  }

  /** From "has access" to the next grant there is a withdrawal, and from "gone" there is nothing. */
  lemma {:induction false} NextEvent(outbox: seq<Event>, id: Id, i: nat, j: nat)
    requires i < j < |outbox| && About(outbox[j], id) && BeliefAfter(outbox, id) != Contradicted
    requires forall k :: i < k < j ==> !About(outbox[k], id)
    ensures BeliefAfter(outbox[..i + 1], id) != Gone
    ensures BeliefAfter(outbox[..i + 1], id) == HasAccess ==> outbox[j].Deprovisioned?
  {
    BeliefUnchanged(outbox, id, i + 1, j);
    LearnedAt(outbox, id, j);
    BeliefOfPrefix(outbox, id, j + 1);
  }

  /** Between any two provisioned events of a row there is a deprovisioned one. */
  lemma {:induction false} ProvisionedAlternates(outbox: seq<Event>, id: Id, i: nat, j: nat)
    requires i < j < |outbox| && outbox[i] == Provisioned(id) && outbox[j] == Provisioned(id)
    requires BeliefAfter(outbox, id) != Contradicted
    ensures exists k :: i < k < j && About(outbox[k], id) && outbox[k].Deprovisioned?
    decreases j - i
  {
    BeliefOfPrefix(outbox, id, i + 1);
    LearnedAt(outbox, id, i);
    var k := FirstAbout(outbox, id, i, j);
    NextEvent(outbox, id, i, k);
    assert outbox[k].Deprovisioned?;
  }

  lemma FirstAbout(outbox: seq<Event>, id: Id, i: nat, j: nat) returns (k: nat)
    requires i < j < |outbox| && About(outbox[j], id)
    ensures i < k <= j && About(outbox[k], id) && forall l :: i < l < k ==> !About(outbox[l], id)
  {
    k := i + 1;
    while !About(outbox[k], id)
      invariant i < k <= j && forall l :: i < l < k ==> !About(outbox[l], id)
      decreases j - k
    {
      k := k + 1;
    }
  }

  /** Nothing follows the deletion event of a row. */
  lemma NothingAfterDeletion(outbox: seq<Event>, id: Id, i: nat, j: nat)
    requires i < j < |outbox| && outbox[i] == Deprovisioned(id, Deleted) && BeliefAfter(outbox, id) != Contradicted
    ensures !About(outbox[j], id)
  {
    BeliefOfPrefix(outbox, id, i + 1);
    LearnedAt(outbox, id, i);
    if About(outbox[j], id) {
      var k := FirstAbout(outbox, id, i, j);
      NextEvent(outbox, id, i, k);
      assert false;
    }
  }

  /** The last event about a row is "provisioned" exactly when the row is active. */
  lemma {:induction false} EndsProvisionedIffActive(t: Tables, id: Id, i: nat)
    requires Audited(t.rows, t.outbox, id) && i < |t.outbox| && About(t.outbox[i], id)
    requires forall k :: i < k < |t.outbox| ==> !About(t.outbox[k], id)
    ensures t.outbox[i] == Provisioned(id) <==> Active(t.rows, id)
  {
    assert t.outbox[..|t.outbox|] == t.outbox;
    BeliefUnchanged(t.outbox, id, i + 1, |t.outbox|);
    LearnedAt(t.outbox, id, i);
  }

  predicate Silent(outbox: seq<Event>, id: Id) {
    forall k :: 0 <= k < |outbox| ==> !About(outbox[k], id)
  }

  /** There is no such row, or it is neither active nor deleted. */
  predicate Staged(rows: map<Id, ScimRow>, id: Id) {
    id in rows ==> !rows[id].active && !rows[id].deleted
  }

  lemma SilentIsStaged(rows: map<Id, ScimRow>, outbox: seq<Event>, id: Id)
    requires Audited(rows, outbox, id) && Silent(outbox, id)
    ensures BeliefAfter(outbox, id) == NeverProvisioned && Staged(rows, id)
  {
    assert outbox[..|outbox|] == outbox && outbox[..0] == [];
    BeliefUnchanged(outbox, id, 0, |outbox|);
  }

  /** A transaction adds at most one event. */
  lemma OutboxGrows(t: Tables, x: Transaction, t': Tables)
    requires Consistent(t) && Commits(t, x, t')
    ensures t'.outbox == t.outbox || exists e :: t'.outbox == t.outbox + [e]
  {
    hide Consistent, UserWrite, AccessWrite, UserOpAllowed, GroupCommits, EventsOf, RolesAfter, MappingsAfter, NextIdAfter, RoleOpAllowed;
    match x
    case OfUser(op) =>
      var viewer :| UserCommits(t, op, t', viewer);
      UserWriteTables(t, op);
      EventsOfOneTransaction(t, op, 0);
      assert t.outbox + [] == t.outbox;
    case OfGroup(op) =>
      var viewer :| GroupCommits(t, op, t', viewer);
      GroupTransactionsSayNothing(t, op, t', viewer);
    case OfAccess(op) =>
      ConsistentGroups(t);
      AccessWriteKeepsDirectory(t, op);
    case OfRole(_) =>
  }

  /** The first event about a row makes it active or deletes it. */
  lemma StaysSilent(t: Tables, x: Transaction, t': Tables, id: Id)
    requires Consistent(t) && Commits(t, x, t') && Audited(t.rows, t.outbox, id) && Audited(t'.rows, t'.outbox, id)
    ensures Silent(t'.outbox, id) <==> Silent(t.outbox, id) && Staged(t'.rows, id)
  {
    hide Consistent, Commits, BeliefAfter;
    OutboxGrows(t, x, t');
    if Silent(t.outbox, id) {
      SilentIsStaged(t.rows, t.outbox, id);
    }
    if t'.outbox != t.outbox {
      var e :| t'.outbox == t.outbox + [e];
      OneMoreEvent(t.outbox, e, id);
      assert t'.outbox[|t.outbox|] == e && forall k :: 0 <= k < |t.outbox| ==> t'.outbox[k] == t.outbox[k];
    }
    if Silent(t'.outbox, id) {
      SilentIsStaged(t'.rows, t'.outbox, id);
    }
  }

  lemma UntouchedIsSilent(t: Tables, id: Id)
    requires Untouched(t)
    ensures AllAudited(t) && Silent(t.outbox, id) && Staged(t.rows, id)
  {
  }

  /** Over every run: a row has no event exactly if it was never active and never deleted. */
  lemma {:induction false} SilentIffNeverActive(states: seq<Tables>, xs: seq<Transaction>, id: Id, n: nat)
    requires Passes(states, xs) && Untouched(states[0]) && n <= |xs|
    ensures Consistent(states[n]) && AllAudited(states[n])
    ensures Silent(states[n].outbox, id) <==> forall i :: 0 <= i <= n ==> Staged(states[i].rows, id)
    decreases n
  {
    hide Consistent, Commits, Audited, Staged, Silent;
    if n == 0 {
      UntouchedIsSilent(states[0], id);
    } else {
      SilentIffNeverActive(states, xs, id, n - 1);
      assert Commits(states[n - 1], xs[n - 1], states[n]);
      CommitConsistent(states[n - 1], xs[n - 1], states[n]);
      TransactionAudited(states[n - 1], xs[n - 1], states[n]);
      StaysSilent(states[n - 1], xs[n - 1], states[n], id);
    }
  }

  // -------------------------------------------------------------- grants of humans

  /** The transactions that take this human grant away. */
  predicate EndsHumanGrant(t: Tables, x: Transaction, g: Grant) {
    match x
    case OfUser(op) => (Deactivates(op) || op.Delete?) && Belongs(g, op.existing.org, op.existing.user)
    case OfGroup(_) => false
    case OfAccess(op) => g in AccessDrops(t, op) && g !in AccessAdds(t, op)
    case OfRole(_) => false
  }

  /** A human's grant ends exactly by withdrawing the user or by a human's removal. */
  lemma HumanGrantEnds(t: Tables, x: Transaction, t': Tables, g: Grant)
    requires Consistent(t) && Commits(t, x, t') && g in Grants(t) && g.owner == Human
    ensures g !in Grants(t') <==> EndsHumanGrant(t, x, g)
  {
    hide Consistent, Grants, UserWrite, UserOpAllowed, AccessWrite, AccessOpAllowed, AccessDrops, AccessAdds, Target;
    match x
    case OfUser(op) =>
      var viewer :| UserCommits(t, op, t', viewer);
      UserWriteConsistent(t, op);
      HumanGrantsUntouched(UserWrite(t, op), t', UserOpOrg(op), UserReconciles(t, op), viewer, g);
    case OfGroup(op) =>
      var viewer :| GroupCommits(t, op, t', viewer);
      GroupWriteConsistent(t, op);
      HumanGrantsUntouched(GroupWrite(t, op), t', GroupOpOrg(t, op), GroupReconciles(t, op), viewer, g);
    case OfAccess(op) => AccessWriteConsistent(t, op);
    case OfRole(op) => RoleWriteConsistent(t, op);
  }

  /** A SCIM user transaction that reconciles without deleting only adds grants. */
  lemma NothingStaleOnlyGrants(t: Tables, op: UserOp, t': Tables, viewer: Id)
    requires Consistent(t) && UserCommits(t, op, t', viewer) && !Deactivates(op) && !op.Delete?
    requires var w := UserWrite(t, op); Stale(Grants(w), Targets(w, UserReconciles(t, op), viewer)) == {}
    ensures Grants(t) <= Grants(t')
  {
    hide Consistent, Grants, UserWrite, UserOpAllowed, Target, Stale, Missing;
    UserWriteConsistent(t, op);
  }
}
