/**
 * Decisions of a replica whose snapshot may be behind.  More facts allow more, so
 * a decision that the database would not take is due to a row that is gone, and
 * hence to a revocation whose synchronous refresh has not reached the replica.
 */
module StaleDecisions {
  import opened Common
  import opened Resources
  import opened Decision
  import opened DecisionTheorems
  import opened RefreshProtocol
  import opened RefreshTheorems

  predicate MoreFacts(a: Facts, b: Facts) {
    a.g <= b.g && a.p <= b.p && a.g2 <= b.g2
  }

  lemma {:induction false} MoreLinks<T>(edges: set<(T, T)>, more: set<(T, T)>, a: T, b: T, level: nat)
    requires edges <= more && HasLink(edges, a, b, level)
    ensures HasLink(more, a, b, level)
    decreases level
  {
    if a != b {
      var e :| e in edges && e.0 == a && HasLink(edges, e.1, b, level - 1);
      MoreLinks(edges, more, e.1, b, level - 1);
    }
  }

  /** Whatever is allowed stays allowed with more facts. */
  lemma MoreIsAllowed(catalog: Catalog, a: Facts, b: Facts, subject: string, resource: Resource, action: string)
    requires MoreFacts(a, b) && Enforce(catalog, a, subject, resource, action)
    ensures Enforce(catalog, b, subject, resource, action)
  {
    hide PermissionMatch, HasLink;
    var f :| f in a.p && MatchesFact(catalog, a, subject, resource, action, f);
    MoreLinks(a.g, b.g, subject, f.0, MAX_HIERARCHY_LEVEL);
    if resource != f.1 {
      MoreLinks(a.g2, b.g2, resource, f.1, MAX_HIERARCHY_LEVEL);
    }
    assert MatchesFact(catalog, b, subject, resource, action, f);
  }

  /** The decision over what a load read. */
  predicate Allows(catalog: Catalog, tables: RefreshProtocol.Tables, subject: string, resource: Resource, action: string) {
    Enforce(catalog, FactsOf(tables.policies, tables.relations), subject, resource, action)
  }

  /** Two sets of tables on which a decision differs. */
  lemma SomeRowIsGone(catalog: Catalog, was: RefreshProtocol.Tables, now: RefreshProtocol.Tables, subject: string, resource: Resource, action: string)
    requires Allows(catalog, was, subject, resource, action) && !Allows(catalog, now, subject, resource, action)
    ensures (exists x :: x in was.policies && x !in now.policies) || (exists e :: e in was.relations && e !in now.relations)
  {
    hide Enforce, GFact, PFact;
    if was.policies <= now.policies && was.relations <= now.relations {
      MoreIsAllowed(catalog, FactsOf(was.policies, was.relations), FactsOf(now.policies, now.relations), subject, resource, action);
    }
  }

  /**
   * A request that replica r allows and the database would not: r was left behind,
   * or its mutex is held so that it does not decide, or a commit newer than what r
   * has read removed a policy or a relation, and the synchronous refresh of that
   * request, or of a later one, has not reached r yet.
   */
  lemma NoUnexplainedPermit(catalog: Catalog, s: State, r: nat, subject: string, resource: Resource, action: string)
    requires Reachable(s) && r < |s.replicas|
    ensures s.WellFormed()
    ensures Allows(catalog, s.Contents(r), subject, resource, action) && !Allows(catalog, s.Database(), subject, resource, action) ==>
      || r in s.broken || s.replicas[r].lock.Some?
      || (exists x :: x in s.Contents(r).policies && x !in s.Database().policies
            && PolicyRemovalUnderWay(s, r, s.replicas[r].snapshot.policiesAt, x))
      || (exists e :: e in s.Contents(r).relations && e !in s.Database().relations
            && RelationRemovalUnderWay(s, r, s.replicas[r].snapshot.relationsAt, e))
  {
    hide Allows, Inv, PolicyRemovalUnderWay, RelationRemovalUnderWay;
    ReachableWellFormed(s);
    var was, now := s.Contents(r), s.Database();
    if Allows(catalog, was, subject, resource, action) && !Allows(catalog, now, subject, resource, action) {
      SomeRowIsGone(catalog, was, now, subject, resource, action);
      if x :| x in was.policies && x !in now.policies {
        NoUnexplainedOverGrant(s, r, x);
      } else {
        var e :| e in was.relations && e !in now.relations;
        NoUnexplainedStaleHierarchy(s, r, e);
      }
    }
  }

  lemma ReachableWellFormed(s: State)
    requires Reachable(s)
    ensures s.WellFormed()
  {
    ReachableInv(s);
  }

  /**
   * Once a synchronous request has reloaded, its replica never again allows what no
   * state of the two tables from its commit on allows.
   */
  lemma RefusedBeforeAnswer(
      catalog: Catalog, s: State, steps: seq<Step>, t: State, c: Committed, subject: string, resource: Resource, action: string)
    requires Reachable(s) && c in s.publishing && Runs(s, steps, t)
    requires forall v, w :: c.version <= v <= w < |t.log| ==>
      !Allows(catalog, Tables(t.log[v].policies, t.log[w].relations), subject, resource, action)
    ensures t.WellFormed() && c.replica < |t.replicas|
    ensures !Allows(catalog, t.Contents(c.replica), subject, resource, action)
  {
    hide Allows, Reachable, Runs;
    var v, w := ServedIsRecent(s, steps, t, c);
  }

  /** A subject without a row in the policy query may do nothing. */
  lemma NoRowsNoPermit(catalog: Catalog, tables: RefreshProtocol.Tables, subject: string, resource: Resource, action: string)
    requires IsUuidText(subject) && forall row :: row in tables.policies ==> ClearRow(row) && row.subject != subject
    ensures !Allows(catalog, tables, subject, resource, action)
  {
    hide PermissionMatch, HasLink, BindingKey, IsUuidText;
    var facts := FactsOf(tables.policies, tables.relations);
    if Allows(catalog, tables, subject, resource, action) {
      var f :| f in facts.p && MatchesFact(catalog, facts, subject, resource, action, f);
      RowFactsHaveColons(tables);
      SubjectLinksAreFacts(facts.g, subject, f.0) by { SubjectIsNoKey(subject); }
    }
  }

  lemma SubjectIsNoKey(subject: string)
    requires IsUuidText(subject)
    ensures ':' !in subject
  {
  }

  lemma RowFactsHaveColons(tables: RefreshProtocol.Tables)
    requires forall row :: row in tables.policies ==> ClearRow(row)
    ensures var facts := FactsOf(tables.policies, tables.relations);
      (forall e :: e in facts.g ==> ':' !in e.0 && ':' in e.1) && forall f :: f in facts.p ==> ':' in f.0
  {
    forall row | row in tables.policies ensures ':' !in row.subject && ':' in BindingKey(row.role, row.resource) {
      KeysHaveAColon(row.role, row.resource);
    }
  }

  /**
   * A user whose last membership a synchronous request took away, and who got none
   * since, is refused everything by the replica that answered.
   */
  lemma LockedOutBeforeAnswer(
      catalog: Catalog, s: State, steps: seq<Step>, t: State, c: Committed, subject: string, resource: Resource, action: string)
    requires Reachable(s) && c in s.publishing && Runs(s, steps, t) && IsUuidText(subject)
    requires forall v, row :: c.version <= v < |t.log| && row in t.log[v].policies ==> ClearRow(row) && row.subject != subject
    ensures t.WellFormed() && c.replica < |t.replicas|
    ensures !Allows(catalog, t.Contents(c.replica), subject, resource, action)
  {
    hide Allows, Reachable, Runs, ClearRow, IsUuidText;
    var v, w := ServedIsRecent(s, steps, t, c);
    NoRowsNoPermit(catalog, t.Contents(c.replica), subject, resource, action);
  }

  /** At rest every replica nothing left behind decides as the database would. */
  lemma DecisionsConverge(catalog: Catalog, s: State, r: nat, subject: string, resource: Resource, action: string)
    requires Reachable(s) && Quiet(s) && r < |s.replicas| && r !in s.broken
    ensures s.WellFormed()
    ensures Allows(catalog, s.Contents(r), subject, resource, action) <==> Allows(catalog, s.Database(), subject, resource, action)
  {
    hide Allows;
    Convergence(s, r);
  }
}
