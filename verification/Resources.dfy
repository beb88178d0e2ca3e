/**
 * The authorization resource hierarchy and its synchronisation from the control
 * plane: organizations, projects below them, environments below projects.
 */
module Resources {
  import opened Common

  datatype Kind = Organization | Project | Env

  /** Stored as its kind, a colon and its id. */
  datatype Resource = Resource(kind: Kind, id: string)

  datatype Row = Row(org: string, parent: Option<Resource>)

  type Hierarchy = map<Resource, Row>

  /** The control plane's answer for an organization: its projects and their environments. */
  type Answer = map<string, seq<string>>

  /** The foreign key on the parent column. */
  predicate Closed(h: Hierarchy) {
    forall r :: r in h && h[r].parent.Some? ==> h[r].parent.value in h
  }

  /** Projects are below organizations; environments below projects, or below organizations until synchronised. */
  predicate Typed(h: Hierarchy) {
    forall r :: r in h ==> TypedRow(r, h[r])
  }

  predicate TypedRow(r: Resource, row: Row) {
    match r.kind
    case Organization => row.parent.None?
    case Project => row.parent.Some? && row.parent.value.kind == Organization
    case Env => row.parent.Some? && row.parent.value.kind != Env
  }

  function OrgRow(org: string): Row { Row(org, None) }

  function ProjectRow(org: string): Row { Row(org, Some(Resource(Organization, org))) }

  function EnvRow(org: string, project: string): Row { Row(org, Some(Resource(Project, project))) }

  /** Every environment is listed once at most, under one project. */
  predicate Disjoint(answer: Answer) {
    forall p, q, e :: p in answer && q in answer && e in answer[p] && e in answer[q] ==> p == q
  }

  // ------------------------------------------------------------ what one run writes

  function EnvsOf(pairs: set<(string, string)>): set<string> {
    set pair | pair in pairs :: pair.1
  }

  predicate WrittenOver(r: Resource, org: string, ps: set<string>, envs: set<string>) {
    match r.kind
    case Organization => r.id == org
    case Project => r.id in ps
    case Env => r.id in envs
  }

  /** A row as the synchronisation of `org` writes it; an environment is below a project that lists it. */
  predicate FreshRow(r: Resource, row: Row, org: string, pairs: set<(string, string)>) {
    match r.kind
    case Organization => row == OrgRow(org)
    case Project => row == ProjectRow(org)
    case Env => row.parent.Some? && row == EnvRow(org, row.parent.value.id) && (row.parent.value.id, r.id) in pairs
  }

  predicate RowWritten(h0: Hierarchy, h: Hierarchy, org: string, ps: set<string>, pairs: set<(string, string)>, r: Resource) {
    if WrittenOver(r, org, ps, EnvsOf(pairs)) then r in h && FreshRow(r, h[r], org, pairs)
    else (r in h <==> r in h0) && (r in h ==> h[r] == h0[r])
  }

  /** h is h0 after writing the organization, the projects `ps` and the (project, environment) pairs. */
  ghost predicate Written(h0: Hierarchy, h: Hierarchy, org: string, ps: set<string>, pairs: set<(string, string)>) {
    forall r :: RowWritten(h0, h, org, ps, pairs, r)
  }

  function PairsOf(p: string, environments: seq<string>): set<(string, string)> {
    set e | e in environments :: (p, e)
  }

  function AllPairs(answer: Answer): set<(string, string)> {
    set p, e | p in answer && e in answer[p] :: (p, e)
  }

  /** One possible outcome of synchronising an organization; the order of projects is the runtime's. */
  ghost predicate SyncedTo(h0: Hierarchy, h: Hierarchy, org: string, answer: Answer) {
    Written(h0, h, org, answer.Keys, AllPairs(answer))
  }

  lemma OrgWritten(h0: Hierarchy, org: string)
    ensures Written(h0, h0[Resource(Organization, org) := OrgRow(org)], org, {}, {})
  {
  }

  lemma ProjectWritten(h0: Hierarchy, h: Hierarchy, org: string, ps: set<string>, pairs: set<(string, string)>, p: string)
    requires Written(h0, h, org, ps, pairs)
    ensures Written(h0, h[Resource(Project, p) := ProjectRow(org)], org, ps + {p}, pairs)
  {
    var h' := h[Resource(Project, p) := ProjectRow(org)];
    forall r ensures RowWritten(h0, h', org, ps + {p}, pairs, r) {
      assert RowWritten(h0, h, org, ps, pairs, r);
    }
  }

  lemma EnvWritten(h0: Hierarchy, h: Hierarchy, org: string, ps: set<string>, pairs: set<(string, string)>, p: string, e: string)
    requires Written(h0, h, org, ps, pairs)
    ensures Written(h0, h[Resource(Env, e) := EnvRow(org, p)], org, ps, pairs + {(p, e)})
  {
    var h', all := h[Resource(Env, e) := EnvRow(org, p)], pairs + {(p, e)};
    assert EnvsOf(all) == EnvsOf(pairs) + {e} by { assert (p, e) in all; }
    forall r ensures RowWritten(h0, h', org, ps, all, r) {
      assert RowWritten(h0, h, org, ps, pairs, r);
    }
  }

  /** Upserts the organization, then each project and its environments, in any order of projects. */
  method SyncAuthorizationResources(h0: Hierarchy, org: string, answer: Answer) returns (h: Hierarchy)
    ensures SyncedTo(h0, h, org, answer)
  {
    hide Written, PairsOf;
    OrgWritten(h0, org);
    h := h0[Resource(Organization, org) := OrgRow(org)];
    var rest := answer.Keys;
    ghost var ps: set<string>, pairs: set<(string, string)> := {}, {};
    while rest != {}
      invariant rest <= answer.Keys && ps == answer.Keys - rest
      invariant pairs == set p, e | p in answer && p in ps && e in answer[p] :: (p, e)
      invariant Written(h0, h, org, ps, pairs)
      decreases rest
    {
      var project :| project in rest;
      ProjectWritten(h0, h, org, ps, pairs, project);
      h := h[Resource(Project, project) := ProjectRow(org)];
      ProjectPairs(answer, ps, pairs, project);
      ps, rest := ps + {project}, rest - {project};
      h, pairs := SyncEnvironments(h0, h, org, project, answer[project], ps, pairs);
    }
    assert ps == answer.Keys && pairs == AllPairs(answer);
  }

  lemma ProjectPairs(answer: Answer, ps: set<string>, pairs: set<(string, string)>, p: string)
    requires p in answer && pairs == set q, e | q in answer && q in ps && e in answer[q] :: (q, e)
    ensures pairs + PairsOf(p, answer[p]) == set q, e | q in answer && q in ps + {p} && e in answer[q] :: (q, e)
  {
  }

  method SyncEnvironments(ghost h0: Hierarchy, h1: Hierarchy, org: string, project: string, environments: seq<string>,
                          ghost ps: set<string>, ghost pairs0: set<(string, string)>)
    returns (h: Hierarchy, ghost pairs: set<(string, string)>)
    requires Written(h0, h1, org, ps, pairs0)
    ensures Written(h0, h, org, ps, pairs) && pairs == pairs0 + PairsOf(project, environments)
  {
    hide Written;
    h, pairs := h1, pairs0;
    for i := 0 to |environments|
      invariant Written(h0, h, org, ps, pairs) && pairs == pairs0 + PairsOf(project, environments[..i])
    {
      var e := environments[i];
      assert PairsOf(project, environments[..i + 1]) == PairsOf(project, environments[..i]) + {(project, e)} by {
        assert environments[..i + 1] == environments[..i] + [e];
      }
      EnvWritten(h0, h, org, ps, pairs, project, e);
      h, pairs := h[Resource(Env, e) := EnvRow(org, project)], pairs + {(project, e)};
    }
    assert environments[..|environments|] == environments;
  }

  /** Synchronising keeps the foreign key and the shape of the hierarchy. */
  lemma SyncKeepsShape(h0: Hierarchy, h: Hierarchy, org: string, answer: Answer)
    requires Closed(h0) && Typed(h0) && SyncedTo(h0, h, org, answer)
    ensures Closed(h) && Typed(h)
  {
    forall r | r in h ensures TypedRow(r, h[r]) && (h[r].parent.Some? ==> h[r].parent.value in h) {
      assert RowWritten(h0, h, org, answer.Keys, AllPairs(answer), r);
      if h[r].parent.Some? {
        assert RowWritten(h0, h, org, answer.Keys, AllPairs(answer), h[r].parent.value);
      }
    }
  }

  /** What a synchronisation leaves: the organization on top, its projects below it, environments below a project that lists them, and the rest. */
  lemma SyncPlaces(h0: Hierarchy, h: Hierarchy, org: string, answer: Answer, r: Resource)
    requires SyncedTo(h0, h, org, answer)
    ensures r == Resource(Organization, org) ==> r in h && h[r] == Row(org, None)
    ensures r.kind == Project && r.id in answer ==> r in h && h[r] == Row(org, Some(Resource(Organization, org)))
    ensures r.kind == Env && (exists p :: p in answer && r.id in answer[p]) ==>
      r in h && exists p :: p in answer && r.id in answer[p] && h[r] == Row(org, Some(Resource(Project, p)))
    ensures (match r.kind
             case Organization => r.id != org
             case Project => r.id !in answer
             case Env => forall p :: p in answer ==> r.id !in answer[p]) ==>
      (r in h <==> r in h0) && (r in h ==> h[r] == h0[r])
  {
    assert RowWritten(h0, h, org, answer.Keys, AllPairs(answer), r);
    if r.kind == Env {
      if p :| p in answer && r.id in answer[p] {
        assert (p, r.id) in AllPairs(answer);
      }
      if r.id in EnvsOf(AllPairs(answer)) {
        var pair :| pair in AllPairs(answer) && pair.1 == r.id;
      }
    }
  }

  // ------------------------------------------------------- when the outcome is unique

  /** Where disjoint answers put every resource they name. */
  function RowsOf(org: string, answer: Answer): Hierarchy
    requires Disjoint(answer)
  {
    (map p | p in answer :: Resource(Project, p) := ProjectRow(org))
    + (map p, e | p in answer && e in answer[p] :: Resource(Env, e) := EnvRow(org, p))
    + map[Resource(Organization, org) := OrgRow(org)]
  }

  lemma RowsAreFresh(org: string, answer: Answer, r: Resource)
    requires Disjoint(answer)
    ensures r in RowsOf(org, answer) <==> WrittenOver(r, org, answer.Keys, EnvsOf(AllPairs(answer)))
    ensures r in RowsOf(org, answer) ==> forall row :: FreshRow(r, row, org, AllPairs(answer)) ==> row == RowsOf(org, answer)[r]
  {
    if r.kind.Env? {
      if r in RowsOf(org, answer) {
        var p, e :| p in answer && e in answer[p] && r == Resource(Env, e);
        assert (p, e) in AllPairs(answer);
      }
      if r.id in EnvsOf(AllPairs(answer)) {
        var pair :| pair in AllPairs(answer) && pair.1 == r.id;
        assert pair.0 in answer && r.id in answer[pair.0];
      }
    }
  }

  /** With disjoint answers the outcome does not depend on the order of the projects. */
  lemma SyncIsMerge(h0: Hierarchy, h: Hierarchy, org: string, answer: Answer)
    requires Disjoint(answer) && SyncedTo(h0, h, org, answer)
    ensures h == h0 + RowsOf(org, answer)
  {
    hide RowsOf, FreshRow, WrittenOver;
    var rows := RowsOf(org, answer);
    forall r ensures (r in h <==> r in h0 + rows) && (r in h ==> h[r] == (h0 + rows)[r]) {
      RowsAreFresh(org, answer, r);
      assert RowWritten(h0, h, org, answer.Keys, AllPairs(answer), r);
    }
  }

  /**
   * The outcome is unique exactly for disjoint answers: an environment listed
   * under two projects ends below whichever the runtime visits last.
   */
  lemma SyncUniqueIffDisjoint(h0: Hierarchy, org: string, answer: Answer)
    ensures (forall a, b :: SyncedTo(h0, a, org, answer) && SyncedTo(h0, b, org, answer) ==> a == b) <==> Disjoint(answer)
  {
    hide SyncedTo;
    if Disjoint(answer) {
      forall a, b | SyncedTo(h0, a, org, answer) && SyncedTo(h0, b, org, answer) ensures a == b {
        SyncIsMerge(h0, a, org, answer);
        SyncIsMerge(h0, b, org, answer);
      }
    } else {
      var p, q, e :| p in answer && q in answer && e in answer[p] && e in answer[q] && p != q;
      var a := OutcomeWith(h0, org, answer, p, e);
      var b := OutcomeWith(h0, org, answer, q, e);
      assert a[Resource(Env, e)] != b[Resource(Env, e)];
    }
  }

  /** There is an outcome in which environment e is below project p, which lists it. */
  lemma OutcomeWith(h0: Hierarchy, org: string, answer: Answer, p: string, e: string) returns (h: Hierarchy)
    requires p in answer && e in answer[p]
    ensures SyncedTo(h0, h, org, answer) && Resource(Env, e) in h && h[Resource(Env, e)] == EnvRow(org, p)
  {
    hide Written;
    var h1 := SomeOutcome(h0, org, answer);
    EnvWritten(h0, h1, org, answer.Keys, AllPairs(answer), p, e);
    assert AllPairs(answer) + {(p, e)} == AllPairs(answer);
    h := h1[Resource(Env, e) := EnvRow(org, p)];
  }

  lemma SomeOutcome(h0: Hierarchy, org: string, answer: Answer) returns (h: Hierarchy)
    ensures SyncedTo(h0, h, org, answer)
  {
    hide Written;
    OrgWritten(h0, org);
    h := h0[Resource(Organization, org) := OrgRow(org)];
    var todo, done: set<string> := answer.Keys, {};
    while todo != {}
      invariant todo + done == answer.Keys && Written(h0, h, org, done, {})
      decreases todo
    {
      var p :| p in todo;
      ProjectWritten(h0, h, org, done, {}, p);
      h, done, todo := h[Resource(Project, p) := ProjectRow(org)], done + {p}, todo - {p};
    }
    assert done == answer.Keys;
    var rest, pairs: set<(string, string)> := AllPairs(answer), {};
    while rest != {}
      invariant rest + pairs == AllPairs(answer) && Written(h0, h, org, answer.Keys, pairs)
      decreases rest
    {
      var pair :| pair in rest;
      EnvWritten(h0, h, org, answer.Keys, pairs, pair.0, pair.1);
      h, pairs, rest := h[Resource(Env, pair.1) := EnvRow(org, pair.0)], pairs + {pair}, rest - {pair};
    }
    assert pairs == AllPairs(answer);
  }
}
