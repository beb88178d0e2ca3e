/**
 * The startup migration: rebuilding the resource hierarchy of every organization,
 * and the upgrade that may be interrupted anywhere and is tried again.
 */
module Migration {
  import opened Common
  import opened Resources

  // ------------------------------------------------------------------ reconciliation

  type Answers = map<string, Answer>

  predicate AllDisjoint(answers: Answers, orgs: seq<string>) {
    forall o :: o in orgs ==> o in answers && Disjoint(answers[o])
  }

  /** What synchronising these organizations in turn writes; a later organization wins. */
  function AllRows(answers: Answers, orgs: seq<string>): Hierarchy
    requires AllDisjoint(answers, orgs)
    decreases |orgs|
  {
    if orgs == [] then map[]
    else AllRows(answers, orgs[..|orgs| - 1]) + RowsOf(orgs[|orgs| - 1], answers[orgs[|orgs| - 1]])
  }

  /** One run over the organizations; it gives up after `cut` of them if the control plane or the database fails. */
  method Reconcile(h0: Hierarchy, answers: Answers, orgs: seq<string>, cut: nat) returns (h: Hierarchy, completed: bool)
    requires AllDisjoint(answers, orgs)
    ensures completed <==> cut >= |orgs|
    ensures h == h0 + AllRows(answers, orgs[..if cut < |orgs| then cut else |orgs|])
  {
    hide SyncedTo, RowsOf, AllRows, Disjoint;
    h := h0;
    NoRows(answers, orgs);
    for i := 0 to |orgs|
      invariant h == h0 + AllRows(answers, orgs[..i]) && i <= cut
    {
      if i == cut {
        return h, false;
      }
      OneMoreOrg(answers, orgs, i);
      var next := SyncAuthorizationResources(h, orgs[i], answers[orgs[i]]);
      SyncIsMerge(h, next, orgs[i], answers[orgs[i]]);
      h := next;
    }
    assert orgs[..|orgs|] == orgs;
    completed := true;
  }

  lemma NoRows(answers: Answers, orgs: seq<string>)
    requires AllDisjoint(answers, orgs)
    ensures AllRows(answers, orgs[..0]) == map[]
  {
  }

  lemma OneMoreOrg(answers: Answers, orgs: seq<string>, i: nat)
    requires AllDisjoint(answers, orgs) && i < |orgs|
    ensures orgs[i] in answers && Disjoint(answers[orgs[i]]) && AllDisjoint(answers, orgs[..i + 1])
    ensures AllRows(answers, orgs[..i + 1]) == AllRows(answers, orgs[..i]) + RowsOf(orgs[i], answers[orgs[i]])
  {
    hide Disjoint, RowsOf;
    assert orgs[i] in orgs && orgs[..i + 1][..i] == orgs[..i];
  }

  lemma {:induction false} PrefixRows(answers: Answers, orgs: seq<string>, k: nat)
    requires AllDisjoint(answers, orgs) && k <= |orgs|
    ensures AllRows(answers, orgs[..k]).Keys <= AllRows(answers, orgs).Keys
    decreases |orgs|
  {
    if k < |orgs| {
      assert orgs[..|orgs| - 1][..k] == orgs[..k];
      PrefixRows(answers, orgs[..|orgs| - 1], k);
    } else {
      assert orgs[..k] == orgs;
    }
  }

  /** Runs cut off anywhere, any number of times, and then one full run: the table of the full run alone. */
  lemma {:induction false} CutOffRunsDoNotMatter(h0: Hierarchy, answers: Answers, orgs: seq<string>, cuts: seq<nat>, h: Hierarchy)
    requires AllDisjoint(answers, orgs) && (forall i :: 0 <= i < |cuts| ==> cuts[i] <= |orgs|)
    requires h == AfterCuts(h0, answers, orgs, cuts)
    ensures h + AllRows(answers, orgs) == h0 + AllRows(answers, orgs)
    decreases |cuts|
  {
    hide AllRows;
    if cuts != [] {
      var init, cut := cuts[..|cuts| - 1], cuts[|cuts| - 1];
      CutOffRunsDoNotMatter(h0, answers, orgs, init, AfterCuts(h0, answers, orgs, init));
      PrefixRows(answers, orgs, cut);
    }
  }

  function AfterCuts(h0: Hierarchy, answers: Answers, orgs: seq<string>, cuts: seq<nat>): Hierarchy
    requires AllDisjoint(answers, orgs) && forall i :: 0 <= i < |cuts| ==> cuts[i] <= |orgs|
    decreases |cuts|
  {
    if cuts == [] then h0
    else AfterCuts(h0, answers, orgs, cuts[..|cuts| - 1]) + AllRows(answers, orgs[..cuts[|cuts| - 1]])
  }

  /** No two organizations are told about the same project or environment. */
  predicate DisjointAcross(answers: Answers, orgs: seq<string>) {
    forall o, q :: o in orgs && q in orgs && o in answers && q in answers && o != q ==>
      answers[o].Keys !! answers[q].Keys && EnvsOf(AllPairs(answers[o])) !! EnvsOf(AllPairs(answers[q]))
  }

  /** After a full run every environment is below its project, and every project below its organization. */
  lemma {:induction false} FullRunPlaces(answers: Answers, orgs: seq<string>, o: string, r: Resource)
    requires AllDisjoint(answers, orgs) && DisjointAcross(answers, orgs) && o in orgs && r in RowsOf(o, answers[o])
    ensures r in AllRows(answers, orgs) && AllRows(answers, orgs)[r] == RowsOf(o, answers[o])[r]
    decreases |orgs|
  {
    hide RowsOf;
    var init, last := orgs[..|orgs| - 1], orgs[|orgs| - 1];
    assert orgs == init + [last] && last in orgs;
    if last != o {
      FullRunPlaces(answers, init, o, r);
      DifferentOrgsDifferentRows(answers, orgs, o, last, r);
    }
  }

  /** In terms of the stored rows. */
  lemma FullRunPlacesRows(answers: Answers, orgs: seq<string>, o: string, p: string, e: string)
    requires AllDisjoint(answers, orgs) && DisjointAcross(answers, orgs) && o in orgs && p in answers[o]
    ensures var h := AllRows(answers, orgs);
      && Resource(Organization, o) in h && h[Resource(Organization, o)] == Row(o, None)
      && Resource(Project, p) in h && h[Resource(Project, p)] == Row(o, Some(Resource(Organization, o)))
      && (e in answers[o][p] ==> Resource(Env, e) in h && h[Resource(Env, e)] == Row(o, Some(Resource(Project, p))))
  {
    RowsPlaced(o, answers[o], p, e);
    hide RowsOf, AllRows;
    FullRunPlaces(answers, orgs, o, Resource(Organization, o));
    FullRunPlaces(answers, orgs, o, Resource(Project, p));
    if e in answers[o][p] {
      FullRunPlaces(answers, orgs, o, Resource(Env, e));
    }
  }

  lemma RowsPlaced(org: string, answer: Answer, p: string, e: string)
    requires Disjoint(answer) && p in answer
    ensures var h := RowsOf(org, answer);
      && Resource(Organization, org) in h && h[Resource(Organization, org)] == Row(org, None)
      && Resource(Project, p) in h && h[Resource(Project, p)] == Row(org, Some(Resource(Organization, org)))
      && (e in answer[p] ==> Resource(Env, e) in h && h[Resource(Env, e)] == Row(org, Some(Resource(Project, p))))
  {
    var pairs := AllPairs(answer);
    hide RowsOf;
    RowsAreFresh(org, answer, Resource(Organization, org));
    RowsAreFresh(org, answer, Resource(Project, p));
    assert FreshRow(Resource(Organization, org), Row(org, None), org, pairs);
    assert FreshRow(Resource(Project, p), Row(org, Some(Resource(Organization, org))), org, pairs);
    if e in answer[p] {
      assert (p, e) in pairs;
      RowsAreFresh(org, answer, Resource(Env, e));
      assert FreshRow(Resource(Env, e), Row(org, Some(Resource(Project, p))), org, pairs);
    }
  }

  lemma DifferentOrgsDifferentRows(answers: Answers, orgs: seq<string>, o: string, q: string, r: Resource)
    requires AllDisjoint(answers, orgs) && DisjointAcross(answers, orgs) && o in orgs && q in orgs && o != q
    requires r in RowsOf(o, answers[o])
    ensures r !in RowsOf(q, answers[q])
  {
    RowsAreFresh(o, answers[o], r);
    RowsAreFresh(q, answers[q], r);
  }

  // ------------------------------------------------------------------------ upgrading

  const LEGACY_SCHEMA_VERSION := 29
  const RESOURCES_SCHEMA_VERSION := 30
  const CASBIN_SCHEMA_VERSION := 31

  /** There is no migration with this number. */
  const SKIPPED_VERSION := 23

  /** So many migrations lead from an empty database to the legacy version. */
  const LEGACY_MIGRATIONS := 28

  /** The number of the next migration. */
  function Next(version: nat): nat {
    if version + 1 == SKIPPED_VERSION then version + 2 else version + 1
  }

  function VersionAfter(version: nat, steps: nat): nat {
    version + steps + (if version < SKIPPED_VERSION <= version + steps then 1 else 0)
  }

  /** How many migrations there are after one version up to another. */
  function Steps(version: nat, latest: nat): nat
    requires version <= latest
  {
    latest - version - (if version < SKIPPED_VERSION <= latest then 1 else 0)
  }

  /** Taking one migration after the other ends where the two counts say. */
  lemma StepsAreNexts(version: nat, steps: nat, latest: nat)
    requires version != SKIPPED_VERSION && latest != SKIPPED_VERSION && version <= latest
    ensures VersionAfter(version, 0) == version && VersionAfter(version, steps + 1) == Next(VersionAfter(version, steps))
    ensures VersionAfter(version, steps) != SKIPPED_VERSION
    ensures VersionAfter(version, steps) <= latest <==> steps <= Steps(version, latest)
    ensures VersionAfter(version, Steps(version, latest)) == latest
    ensures VersionAfter(version, steps) <= latest ==> Steps(VersionAfter(version, steps), latest) == Steps(version, latest) - steps
  {
  }

  /** What survives an interruption. */
  datatype Store = Store(version: nat, sha: string, reconciled: bool, hierarchy: Hierarchy)

  /** The resource table and the migration state come into being with their schema versions. */
  predicate ValidStore(s: Store) {
    && s.version != SKIPPED_VERSION
    && (s.version < RESOURCES_SCHEMA_VERSION ==> s.hierarchy == map[])
    && (s.version < CASBIN_SCHEMA_VERSION ==> s.sha == "" && !s.reconciled)
  }

  const EMPTY_DATABASE := Store(0, "", false, map[])

  /**
   * What the checks and the control plane say; the three fingerprints are read one after the other,
   * and `projected` are the resources the legacy projection names.
   */
  datatype World = World(
    latest: nat, preflightReady: bool, ready: Hierarchy -> bool, shaPreflight: string, shaBefore: string, shaAfter: string,
    projected: Hierarchy, answers: Answers, orgs: seq<string>)

  datatype Outcome = Served | Refused | Interrupted

  predicate WellFormed(w: World) {
    AllDisjoint(w.answers, w.orgs) && CASBIN_SCHEMA_VERSION <= w.latest && w.shaPreflight != "" && w.shaBefore != "" && w.shaAfter != ""
  }

  /** Whether the preflight lets legacy data through. */
  predicate Trusted(w: World, expected: string) {
    w.preflightReady && (expected == "" || expected == w.shaPreflight)
  }

  /** Schema versions the upgrade turns down, and legacy data it does not trust. */
  predicate TurnedDown(s: Store, w: World, expected: string) {
    1 <= s.version < LEGACY_SCHEMA_VERSION || s.version > w.latest || (s.version == LEGACY_SCHEMA_VERSION && !Trusted(w, expected))
  }

  /** The fingerprint the policy must still have. */
  function Required(s: Store, w: World, expected: string): string {
    Settled(s, w, expected, if s.version == LEGACY_SCHEMA_VERSION then w.shaPreflight else expected)
  }

  function Settled(s: Store, w: World, expected: string, first: string): string {
    if s.reconciled && expected == "" then w.shaBefore
    else if first != "" then first
    else if s.sha != "" then s.sha
    else w.shaBefore
  }

  /** The store `steps` schema migrations later. */
  function Migrated(s: Store, w: World, steps: nat): Store {
    var version := VersionAfter(s.version, steps);
    Store(version, s.sha, s.reconciled, if s.version < RESOURCES_SCHEMA_VERSION <= version then w.projected else s.hierarchy)
  }

  /** One attempt, of which only the first `cut` durable changes happen. */
  function Attempt(s: Store, w: World, expected: string, cut: nat): (Store, Outcome)
    requires WellFormed(w)
  {
    if TurnedDown(s, w, expected) then (s, Refused)
    else
      var steps := Steps(s.version, w.latest);
      if cut < steps then (Migrated(s, w, cut), Interrupted)
      else AfterMigration(Migrated(s, w, steps), w, expected, Required(s, w, expected), cut - steps)
  }

  function AfterMigration(s: Store, w: World, expected: string, required: string, cut: nat): (Store, Outcome)
    requires WellFormed(w)
  {
    if s.reconciled && expected == "" && w.ready(s.hierarchy) then (s, Served)
    else if w.shaBefore != required then (s, Refused)
    else if s.sha != "" then Rebuild(s, w, required, cut)
    else if cut == 0 then (s, Interrupted)
    else Rebuild(s.(sha := required), w, required, cut - 1)
  }

  function Rebuild(s: Store, w: World, required: string, cut: nat): (Store, Outcome)
    requires WellFormed(w)
  {
    if s.reconciled && w.ready(s.hierarchy) then (s, Served)
    else if cut < |w.orgs| then (s.(hierarchy := s.hierarchy + AllRows(w.answers, w.orgs[..cut])), Interrupted)
    else
      var t := s.(hierarchy := s.hierarchy + AllRows(w.answers, w.orgs));
      if !w.ready(t.hierarchy) || w.shaAfter != required then (t, Refused)
      else if cut == |w.orgs| then (t, Interrupted)
      else (t.(reconciled := true), Served)
  }

  /** Applies the schema migrations one at a time, each of them durable on its own. */
  method MigrateUp(s0: Store, w: World, cut: nat) returns (s: Store, left: nat, completed: bool)
    requires ValidStore(s0) && s0.version <= w.latest && w.latest != SKIPPED_VERSION
    ensures completed <==> cut >= Steps(s0.version, w.latest)
    ensures completed ==> s == Migrated(s0, w, Steps(s0.version, w.latest)) && left == cut - Steps(s0.version, w.latest)
    ensures !completed ==> s == Migrated(s0, w, cut)
    ensures ValidStore(s)
  {
    s, left := s0, cut;
    StepsAreNexts(s0.version, 0, w.latest);
    while s.version < w.latest
      invariant 0 <= cut - left <= Steps(s0.version, w.latest)
      invariant s == Migrated(s0, w, cut - left) && ValidStore(s)
      decreases left, w.latest - s.version
    {
      StepsAreNexts(s0.version, cut - left, w.latest);
      StepsAreNexts(s0.version, cut - left + 1, w.latest);
      if left == 0 {
        return s, left, false;
      }
      var version := Next(s.version);
      if version == RESOURCES_SCHEMA_VERSION {
        s := s.(hierarchy := w.projected);
      } else if version == CASBIN_SCHEMA_VERSION {
        s := s.(sha := "", reconciled := false);
      }
      s, left := s.(version := version), left - 1;
    }
    StepsAreNexts(s0.version, cut - left, w.latest);
    completed := true;
  }

  method Upgrade(s0: Store, w: World, expected: string, cut: nat) returns (s: Store, outcome: Outcome)
    requires WellFormed(w) && ValidStore(s0)
    ensures (s, outcome) == Attempt(s0, w, expected, cut)
    ensures ValidStore(s)
  {
    hide AllRows, AllDisjoint;
    s := s0;
    var left := cut;
    var effectiveExpected := expected;
    var completed := true;
    if s.version == 0 {
      s, left, completed := MigrateUp(s, w, left);
    } else if s.version == LEGACY_SCHEMA_VERSION {
      if !w.preflightReady || (effectiveExpected != "" && effectiveExpected != w.shaPreflight) {
        return s, Refused;
      }
      effectiveExpected := w.shaPreflight;
      s, left, completed := MigrateUp(s, w, left);
    } else if 1 <= s.version < LEGACY_SCHEMA_VERSION {
      return s, Refused;
    } else if LEGACY_SCHEMA_VERSION <= s.version < CASBIN_SCHEMA_VERSION {
      s, left, completed := MigrateUp(s, w, left);
    } else if s.version > w.latest {
      return s, Refused;
    }
    if !completed {
      return s, Interrupted;
    }
    s, left, completed := MigrateUp(s, w, left);
    if !completed {
      return s, Interrupted;
    }
    assert effectiveExpected == if s0.version == LEGACY_SCHEMA_VERSION then w.shaPreflight else expected;
    s, outcome := VerifyAndReconcile(s, w, expected, effectiveExpected, left);
  }

  /** The part of the upgrade after the schema migrations. */
  method VerifyAndReconcile(s0: Store, w: World, expected: string, firstExpected: string, cut: nat) returns (s: Store, outcome: Outcome)
    requires WellFormed(w) && ValidStore(s0) && s0.version >= CASBIN_SCHEMA_VERSION
    ensures (s, outcome) == AfterMigration(s0, w, expected, Settled(s0, w, expected, firstExpected), cut)
    ensures ValidStore(s)
  {
    hide AllRows, AllDisjoint;
    s := s0;
    var left, effectiveExpected := cut, firstExpected;
    if s.reconciled && expected == "" && w.ready(s.hierarchy) {
      return s, Served;
    }
    if s.reconciled && expected == "" {
      effectiveExpected := w.shaBefore;
    }
    if effectiveExpected == "" {
      effectiveExpected := s.sha;
    }
    if effectiveExpected == "" {
      effectiveExpected := w.shaBefore;
    }
    if w.shaBefore != effectiveExpected {
      return s, Refused;
    }
    if s.sha == "" {
      if left == 0 {
        return s, Interrupted;
      }
      s, left := s.(sha := effectiveExpected), left - 1;
    }
    if !s.reconciled || !w.ready(s.hierarchy) {
      var h, full := Reconcile(s.hierarchy, w.answers, w.orgs, left);
      assert w.orgs[..|w.orgs|] == w.orgs;
      s := s.(hierarchy := h);
      if !full {
        return s, Interrupted;
      }
      if !w.ready(s.hierarchy) || w.shaAfter != effectiveExpected {
        return s, Refused;
      }
      if left == |w.orgs| {
        return s, Interrupted;
      }
      s := s.(reconciled := true);
    }
    outcome := Served;
  }

  // --------------------------------------------------------------- what it guarantees

  /**
   * Traffic is served only from the latest schema and a verified, reconciled store; if this attempt
   * reconciled, the policy did not change meanwhile.
   */
  lemma ServedIsVerified(s: Store, w: World, expected: string, cut: nat)
    requires WellFormed(w) && ValidStore(s) && Attempt(s, w, expected, cut).1 == Served
    ensures var t := Attempt(s, w, expected, cut).0;
      && t.version == w.latest && t.reconciled && w.ready(t.hierarchy)
      && (t.hierarchy != s.hierarchy || !s.reconciled ==> w.shaBefore == w.shaAfter)
      && (s.version == LEGACY_SCHEMA_VERSION ==> w.shaBefore == w.shaPreflight)
  {
    hide AllRows, AllDisjoint;
  }

  /** Legacy data, at version 29, is touched only if the preflight is ready and has the fingerprint that was asked for, if any. */
  lemma LegacyDataIsTrusted(s: Store, w: World, expected: string, cut: nat)
    requires WellFormed(w) && ValidStore(s) && s.version == 29
    requires Attempt(s, w, expected, cut) != (s, Refused)
    ensures w.preflightReady && (expected != "" ==> w.shaPreflight == expected)
  {
    hide AfterMigration, Migrated, AllDisjoint;
  }

  /**
   * Traffic is served only on the fingerprint asked for, and a first reconciliation
   * keeps to the one that is stored, or stores the one it found; one that was
   * served before without changes needs none.
   */
  lemma ServedAsExpected(s: Store, w: World, expected: string, cut: nat)
    requires WellFormed(w) && ValidStore(s) && Attempt(s, w, expected, cut).1 == Served
    ensures expected != "" ==> w.shaBefore == expected
    ensures !s.reconciled && s.version != 29 && expected == "" && s.sha != "" ==> w.shaBefore == s.sha
    ensures !s.reconciled ==> Attempt(s, w, expected, cut).0.sha == if s.sha != "" then s.sha else w.shaBefore
    ensures s.version == 0 || 29 <= s.version <= w.latest
  {
    hide AllRows, AllDisjoint;
  }

  /** An attempt that is not cut off refuses a database only for its version, its data, or a fingerprint or a check that fails. */
  lemma RefusedForACause(s: Store, w: World, expected: string, cut: nat)
    requires WellFormed(w) && ValidStore(s) && Attempt(s, w, expected, cut).1 == Refused
    ensures
      || 1 <= s.version < 29 || s.version > w.latest
      || (s.version == 29 && (!w.preflightReady || (expected != "" && expected != w.shaPreflight) || w.shaBefore != w.shaPreflight || w.shaAfter != w.shaPreflight))
      || (expected != "" && (w.shaBefore != expected || w.shaAfter != expected))
      || (s.sha != "" && expected == "" && (w.shaBefore != s.sha || w.shaAfter != s.sha))
      || w.shaAfter != w.shaBefore
      || exists h :: !w.ready(h)
  {
    hide AllRows, AllDisjoint;
  }

  /** A first installation cut off after some migrations: their numbers skip 23, and the resource table comes with number 30. */
  lemma FirstInstallationByStep(w: World, expected: string, cut: nat)
    requires WellFormed(w) && cut < 30
    ensures Attempt(EMPTY_DATABASE, w, expected, cut)
      == (Store(if cut < 23 then cut else cut + 1, "", false, if cut < 29 then map[] else w.projected), Interrupted)
  {
    hide AfterMigration, AllDisjoint;
  }

  /** A stored fingerprint is never replaced, and the reconciled mark is set only by an attempt that ends up serving. */
  lemma MarksAreLasting(s: Store, w: World, expected: string, cut: nat)
    requires WellFormed(w) && ValidStore(s)
    ensures var (t, outcome) := Attempt(s, w, expected, cut);
      && ValidStore(t) && t.version >= s.version
      && (s.sha != "" ==> t.sha == s.sha) && (s.reconciled ==> t.reconciled)
      && (!s.reconciled && t.reconciled ==> outcome == Served)
  {
    hide AllRows, AllDisjoint;
  }

  /** The policy data stays as it is while the upgrade is tried. */
  predicate Undisturbed(w: World) {
    w.shaPreflight == w.shaBefore == w.shaAfter
  }

  /** So many durable changes are enough for any attempt. */
  function Enough(w: World): nat {
    w.latest + |w.orgs| + 2
  }

  lemma EnoughIsEnough(s: Store, w: World, expected: string, required: string, cut: nat, cut': nat)
    requires WellFormed(w) && cut >= |w.orgs| + 2 && cut' >= |w.orgs| + 2
    ensures AfterMigration(s, w, expected, required, cut) == AfterMigration(s, w, expected, required, cut')
    ensures AfterMigration(s, w, expected, required, cut).1 != Interrupted
    ensures AfterMigration(s, w, expected, required, cut).0.version == s.version
  {
    hide AllRows, AllDisjoint;
  }

  /** Cut off while the resources are rebuilt or just before or after that: a retry takes up where it stopped. */
  lemma RebuildCatchesUp(s: Store, w: World, expected: string, required: string, cut: nat, cut': nat)
    requires WellFormed(w) && !s.reconciled && s.version == w.latest && cut' >= |w.orgs| + 2
    requires AfterMigration(s, w, expected, required, cut).1 == Interrupted
    ensures var t := AfterMigration(s, w, expected, required, cut).0;
      && w.shaBefore == required && t.version == w.latest && !t.reconciled && (t.sha == s.sha || (s.sha == "" && t.sha == required))
      && AfterMigration(t, w, expected, required, cut') == AfterMigration(s, w, expected, required, cut')
  {
    hide AllRows;
    var left := if s.sha != "" || cut == 0 then cut else cut - 1;
    var k := if left < |w.orgs| then left else |w.orgs|;
    assert w.orgs[..|w.orgs|] == w.orgs;
    PrefixRows(w.answers, w.orgs, k);
    assert s.hierarchy + AllRows(w.answers, w.orgs[..k]) + AllRows(w.answers, w.orgs) == s.hierarchy + AllRows(w.answers, w.orgs);
  }

  /**
   * Retrying an interrupted upgrade ends like one uninterrupted upgrade if and only if the
   * interruption did not leave an unfinished installation behind: a schema below the legacy
   * version, or one at it whose preflight does not let it through.
   */
  lemma RetryCatchesUpIff(s: Store, w: World, expected: string, cut: nat, cut': nat)
    requires WellFormed(w) && Undisturbed(w) && ValidStore(s) && !s.reconciled && cut' >= Enough(w)
    requires Attempt(s, w, expected, cut).1 == Interrupted
    ensures var t := Attempt(s, w, expected, cut).0;
      Attempt(t, w, expected, cut') == Attempt(s, w, expected, cut') <==>
      !(1 <= t.version < LEGACY_SCHEMA_VERSION) && (t.version == LEGACY_SCHEMA_VERSION ==> Trusted(w, expected))
  {
    hide AllRows, AllDisjoint;
    var t := Attempt(s, w, expected, cut).0;
    var required := Required(s, w, expected);
    var steps := Steps(s.version, w.latest);
    StepsAreNexts(s.version, cut, w.latest);
    StepsAreNexts(s.version, steps, w.latest);
    if cut < steps {
      hide AfterMigration, Rebuild;
      var rest := Steps(t.version, w.latest);
      EnoughIsEnough(Migrated(s, w, steps), w, expected, required, cut' - rest, cut' - steps);
      assert Migrated(t, w, rest) == Migrated(s, w, steps);
      assert !TurnedDown(t, w, expected) ==> Required(t, w, expected) == required;
    } else {
      RebuildCatchesUp(Migrated(s, w, steps), w, expected, required, cut - steps, cut' - steps);
      assert Migrated(t, w, 0) == t && Required(t, w, expected) == required;
    }
  }

  /** A store reconciled once before is served or ends likewise. */
  lemma ReconciledRetry(s: Store, w: World, expected: string, cut: nat, cut': nat)
    requires WellFormed(w) && Undisturbed(w) && ValidStore(s) && s.reconciled && cut' >= Enough(w)
    requires Attempt(s, w, expected, cut).1 == Interrupted
    ensures var t := Attempt(s, w, expected, cut).0;
      var again := Attempt(t, w, expected, cut');
      again == Attempt(s, w, expected, cut') || (again.1 == Served && w.ready(t.hierarchy))
  {
    hide AllRows;
    forall k | 0 <= k <= |w.orgs|
      ensures s.hierarchy + AllRows(w.answers, w.orgs[..k]) + AllRows(w.answers, w.orgs) == s.hierarchy + AllRows(w.answers, w.orgs)
    {
      PrefixRows(w.answers, w.orgs, k);
    }
    assert w.orgs[..|w.orgs|] == w.orgs;
  }

  /** The store after attempts that were all cut off. */
  function AfterInterruptions(s: Store, w: World, expected: string, cuts: seq<nat>): Store
    requires WellFormed(w)
    decreases |cuts|
  {
    if cuts == [] then s else AfterInterruptions(Attempt(s, w, expected, cuts[0]).0, w, expected, cuts[1..])
  }

  predicate AllInterrupted(s: Store, w: World, expected: string, cuts: seq<nat>)
    requires WellFormed(w)
    decreases |cuts|
  {
    cuts == [] || (Attempt(s, w, expected, cuts[0]).1 == Interrupted
                   && AllInterrupted(Attempt(s, w, expected, cuts[0]).0, w, expected, cuts[1..]))
  }

  /** Any number of interruptions: the last retry ends like one uninterrupted upgrade exactly under the same condition. */
  lemma {:induction false} ManyRetriesCatchUpIff(s: Store, w: World, expected: string, cuts: seq<nat>, cut': nat)
    requires WellFormed(w) && Undisturbed(w) && ValidStore(s) && !s.reconciled && cut' >= Enough(w)
    requires cuts != [] && AllInterrupted(s, w, expected, cuts)
    ensures var t := AfterInterruptions(s, w, expected, cuts);
      Attempt(t, w, expected, cut') == Attempt(s, w, expected, cut') <==>
      !(1 <= t.version < LEGACY_SCHEMA_VERSION) && (t.version == LEGACY_SCHEMA_VERSION ==> Trusted(w, expected))
    decreases |cuts|
  {
    hide AllDisjoint, AfterMigration, Undisturbed, Migrated, WellFormed;
    RetryCatchesUpIff(s, w, expected, cuts[0], cut');
    if |cuts| > 1 {
      var t := Attempt(s, w, expected, cuts[0]).0;
      MarksAreLasting(s, w, expected, cuts[0]);
      ManyRetriesCatchUpIff(t, w, expected, cuts[1..], cut');
    }
  }

  datatype Try = Try(world: World, expected: string, cut: nat)

  function AfterTries(s: Store, tries: seq<Try>): Store
    requires forall i :: 0 <= i < |tries| ==> WellFormed(tries[i].world)
    decreases |tries|
  {
    if tries == [] then s else AfterTries(Attempt(s, tries[0].world, tries[0].expected, tries[0].cut).0, tries[1..])
  }

  /**
   * A first installation that stops after between 1 and 27 schema migrations is never finished: whatever the
   * checks say later and however often it is tried, each attempt refuses and leaves the store as it is.
   */
  lemma {:induction false} UnfinishedInstallIsStuck(w: World, expected: string, cut: nat, tries: seq<Try>)
    requires WellFormed(w) && forall i :: 0 <= i < |tries| ==> WellFormed(tries[i].world)
    requires 1 <= cut < LEGACY_MIGRATIONS
    ensures var (t, outcome) := Attempt(EMPTY_DATABASE, w, expected, cut);
      && outcome == Interrupted && t.version == VersionAfter(0, cut) && 1 <= t.version < LEGACY_SCHEMA_VERSION && AfterTries(t, tries) == t
      && forall i :: 0 <= i < |tries| ==>
        Attempt(AfterTries(t, tries[..i]), tries[i].world, tries[i].expected, tries[i].cut) == (t, Refused)
    decreases |tries|
  {
    hide AllDisjoint, AfterMigration;
    var t := Attempt(EMPTY_DATABASE, w, expected, cut).0;
    assert t.version == VersionAfter(0, cut);
    hide WellFormed;
    forall i | 0 <= i < |tries|
      ensures AfterTries(t, tries[..i]) == t
    {
      UnfinishedInstallIsStuck(w, expected, cut, tries[..i]);
    }
    if tries != [] {
      UnfinishedInstallIsStuck(w, expected, cut, tries[1..]);
    }
  }

  /**
   * Exactly the first installations cut off after between 1 and 27 schema migrations end up there; the 28th leads
   * to the legacy version, whose preflight decides about the retry.
   */
  lemma UnfinishedIffCutEarly(s: Store, w: World, expected: string, cut: nat)
    requires WellFormed(w) && ValidStore(s)
    ensures var (t, outcome) := Attempt(s, w, expected, cut);
      && (outcome == Interrupted && 1 <= t.version < LEGACY_SCHEMA_VERSION <==> s.version == 0 && 1 <= cut < LEGACY_MIGRATIONS)
      && (s.version == 0 && cut == LEGACY_MIGRATIONS ==> outcome == Interrupted && t.version == LEGACY_SCHEMA_VERSION)
  {
    hide AllRows, AllDisjoint;
  }
}
