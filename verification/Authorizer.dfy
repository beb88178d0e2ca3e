/**
 * One replica's authorizer: its policy snapshot, its cache of decisions and
 * known permissions, and its two capacity-1 signal channels.
 */
module Authorizer {
  import opened Common
  import opened Resources
  import opened Decision

  // --------------------------------------------------------------------- resources

  function Cut(s: string, sep: char): Option<(string, string)>
    decreases |s|
  {
    if s == [] then None
    else if s[0] == sep then Some(([], s[1..]))
    else match Cut(s[1..], sep)
      case None => None
      case Some(parts) => Some(([s[0]] + parts.0, parts.1))
  }

  function ParseKind(s: string): Option<Kind> {
    if s == "organization" || s == "org" then Some(Organization)
    else if s == "project" then Some(Project)
    else if s == "env" then Some(Env)
    else None
  }

  /** A kind and a non-empty id around the first colon. */
  function ParseResource(s: string): Option<Resource> {
    match Cut(s, ':')
    case None => None
    case Some(parts) =>
      if parts.1 == "" then None
      else match ParseKind(parts.0)
        case None => None
        case Some(kind) => Some(Resource(kind, parts.1))
  }

  lemma {:induction false} CutAtFirst(a: string, b: string, sep: char)
    requires sep !in a
    ensures Cut(a + [sep] + b, sep) == Some((a, b))
    decreases |a|
  {
    if a == [] {
      assert a + [sep] + b == [sep] + b && ([sep] + b)[1..] == b;
    } else {
      CutAtFirst(a[1..], b, sep);
      assert (a + [sep] + b)[1..] == a[1..] + [sep] + b;
      assert a == [a[0]] + a[1..];
    }
  }

  lemma {:induction false} CutSplits(s: string, sep: char)
    ensures Cut(s, sep).Some? ==> s == Cut(s, sep).value.0 + [sep] + Cut(s, sep).value.1 && sep !in Cut(s, sep).value.0
    ensures Cut(s, sep).None? ==> sep !in s
    decreases |s|
  {
    if s != [] {
      assert s == [s[0]] + s[1..];
      CutSplits(s[1..], sep);
    }
  }

  /** Stored resource names are read back as themselves, and only "org" is an alias. */
  lemma ParseText(r: Resource)
    requires r.id != ""
    ensures ParseResource(Text(r)) == Some(r)
  {
    KindTextsClear(r.kind);
    CutAtFirst(KindText(r.kind), r.id, ':');
    assert KindText(r.kind) + ":" + r.id == KindText(r.kind) + [':'] + r.id;
    assert "organization"[0] == 'o' && "org"[0] == 'o' && "project"[0] == 'p' && "env"[0] == 'e';
  }

  lemma ParsedIsTextOrAlias(s: string)
    requires ParseResource(s).Some?
    ensures var r := ParseResource(s).value;
      r.id != "" && (s == Text(r) || (r.kind == Organization && s == "org:" + r.id))
  {
    CutSplits(s, ':');
  }

  /** Exactly these texts name resources. */
  lemma ParsedIff(s: string, r: Resource)
    ensures ParseResource(s) == Some(r) <==>
      r.id != "" &&
      match r.kind
      case Organization => s == "organization:" + r.id || s == "org:" + r.id
      case Project => s == "project:" + r.id
      case Env => s == "env:" + r.id
  {
    if ParseResource(s) == Some(r) {
      ParsedIsTextOrAlias(s);
    }
    if r.id != "" {
      ParseText(r);
      CutAtFirst("org", r.id, ':');
      assert "org" + ":" + r.id == "org" + [':'] + r.id;
      assert "org:" + r.id == "org" + ":" + r.id;
      assert ParseResource("org:" + r.id) == Some(Resource(Organization, r.id));
    }
    assert "organization:" + r.id == "organization" + ":" + r.id && "project:" + r.id == "project" + ":" + r.id && "env:" + r.id == "env" + ":" + r.id;
    assert "org:" + r.id == "org" + ":" + r.id;
  }

  // ------------------------------------------------------------------------ checks

  datatype Check = Check(resource: string, permission: string)

  datatype Answer = Answer(check: Check, allowed: bool, invalid: bool)

  type Known = (Resource, string)

  predicate IsCustomPermission(catalog: Catalog, permission: string) {
    permission !in {READ, WRITE, MANAGE, READ_ALL, WRITE_ALL, MANAGE_ALL} && permission !in catalog
  }

  /** The message bus, if one is configured. */
  datatype Bus = NoBus | Working | Failing

  class CasbinAuthorizer {
    const catalog: Catalog
    const instance: string
    var facts: Facts
    var decisions: map<(string, Resource, string), bool>
    var known: map<Known, bool>
    var invalidationRequested: bool
    var reloadDeferred: bool

    /** What the store has answered about known permissions since the last reload. */
    ghost var told: set<(Resource, string, bool)>

    ghost predicate Valid()
      reads this
    {
      && (forall k :: k in decisions ==> decisions[k] == Enforce(catalog, facts, k.0, k.1, k.2))
      && (forall k :: k in known ==> (k.0, k.1, known[k]) in told)
    }

    /** The first policy is loaded while the engine is constructed. */
    constructor (catalog: Catalog, instance: string, facts: Facts)
      ensures Valid() && this.facts == facts && this.catalog == catalog && this.instance == instance
      ensures !invalidationRequested && !reloadDeferred && fresh(this)
    {
      this.catalog, this.instance, this.facts := catalog, instance, facts;
      decisions, known, told := map[], map[], {};
      invalidationRequested, reloadDeferred := false, false;
    }

    /** Cached decisions go whatever happens; a failed load leaves the old policy in place. */
    method ReloadLocally(load: Option<Facts>)
      requires Valid()
      modifies this`facts, this`decisions, this`known, this`told
      ensures Valid() && decisions == map[] && known == map[] && told == {}
      ensures facts == if load.Some? then load.value else old(facts)
    {
      decisions, known, told := map[], map[], {};
      if load.Some? {
        facts := load.value;
      }
    }

    /** A synchronous reload; it tells the other replicas only after it succeeded, and fails if it cannot. */
    method ReloadPolicy(load: Option<Facts>, bus: Bus) returns (succeeded: bool, published: Option<string>)
      requires Valid()
      modifies this`facts, this`decisions, this`known, this`told
      ensures Valid() && facts == if load.Some? then load.value else old(facts)
      ensures decisions == map[] && known == map[] && told == {}
      ensures published == if load.Some? && bus.Working? then Some(instance) else None
      ensures succeeded <==> load.Some? && !bus.Failing?
    {
      ReloadLocally(load);
      if load.None? {
        return false, None;
      }
      match bus
      case NoBus => succeeded, published := true, None;
      case Working => succeeded, published := true, Some(instance);
      case Failing => succeeded, published := false, None;
    }

    /** A full channel absorbs the signal: one reload follows for all of them. */
    method ScheduleReloadPolicy()
      modifies this`reloadDeferred
      ensures reloadDeferred
    {
      if !reloadDeferred {
        reloadDeferred := true;
      }
    }

    /** Invalidations this replica published itself are ignored. */
    method HandleInvalidation(origin: string)
      modifies this`invalidationRequested
      ensures invalidationRequested <==> old(invalidationRequested) || origin != instance
    {
      if origin == instance {
        return;
      }
      invalidationRequested := true;
    }

    /** Entries expire or are evicted at any time. */
    method Expire(decided: set<(string, Resource, string)>, permissions: set<Known>)
      requires Valid()
      modifies this`decisions, this`known
      ensures Valid() && decisions == old(decisions) - decided && known == old(known) - permissions
    {
      decisions := decisions - decided;
      known := known - permissions;
    }

    /** The cached verdict, or a fresh one, which is then cached. */
    method CachedEnforce(subject: string, resource: Resource, action: string) returns (allowed: bool)
      requires Valid()
      modifies this`decisions
      ensures Valid() && allowed == Enforce(catalog, facts, subject, resource, action)
    {
      var key := (subject, resource, action);
      var expired: bool := *;
      if key in decisions && !expired {
        allowed := decisions[key];
      } else {
        allowed := Enforce(catalog, facts, subject, resource, action);
        decisions := decisions[key := allowed];
      }
    }

    /** Custom permissions are looked up in the cache first, the misses in one query, which may fail. */
    method KnownCustomPermissions(checks: seq<Known>, store: Option<set<Known>>) returns (result: Option<map<Known, bool>>)
      requires Valid()
      modifies this`known, this`told
      ensures Valid() && told >= old(told)
      ensures store.Some? ==> result.Some?
      ensures result.None? ==> told == old(told) && known == old(known)
      ensures result.Some? ==> forall c :: c in checks && IsCustomPermission(catalog, c.1) ==>
        c in result.value && (c.0, c.1, result.value[c]) in told
      ensures forall v :: v in told && v !in old(told) ==> store.Some? && v.2 == ((v.0, v.1) in store.value)
    {
      var found: map<Known, bool> := map[];
      var misses: seq<Known> := [];
      for i := 0 to |checks|
        invariant known == old(known)
        invariant forall c :: c in found ==> (c.0, c.1, found[c]) in told
        invariant forall c :: c in checks[..i] && IsCustomPermission(catalog, c.1) ==> c in found || c in misses
      {
        assert checks[..i + 1] == checks[..i] + [checks[i]];
        if IsCustomPermission(catalog, checks[i].1) {
          var expired: bool := *;
          if checks[i] in known && !expired {
            found := found[checks[i] := known[checks[i]]];
          } else {
            misses := misses + [checks[i]];
          }
        }
      }
      assert checks[..|checks|] == checks;
      if |misses| == 0 {
        return Some(found);
      }
      if store.None? {
        return None;
      }
      for i := 0 to |misses|
        invariant Valid() && told >= old(told)
        invariant forall c :: c in found ==> (c.0, c.1, found[c]) in told
        invariant forall c :: c in misses[..i] ==> c in found
        invariant forall c :: c in checks && IsCustomPermission(catalog, c.1) ==> c in found || c in misses
        invariant forall v :: v in told && v !in old(told) ==> v.2 == ((v.0, v.1) in store.value)
      {
        var c := misses[i];
        assert misses[..i + 1] == misses[..i] + [c];
        var isKnown := c in store.value;
        told := told + {(c.0, c.1, isKnown)};
        known := known[c := isKnown];
        found := found[c := isKnown];
      }
      assert misses[..|misses|] == misses;
      result := Some(found);
    }

    /** What one check must be answered: by the snapshot, or invalid for an unknown custom permission. */
    ghost predicate Answers(subject: string, check: Check, answer: Answer)
      reads this
    {
      && answer.check == check && ParseResource(check.resource).Some?
      && var resource := ParseResource(check.resource).value;
      && (answer.invalid ==> IsCustomPermission(catalog, check.permission) && !answer.allowed && (resource, check.permission, false) in told)
      && (!answer.invalid ==>
            && answer.allowed == Enforce(catalog, facts, subject, resource, check.permission)
            && (IsCustomPermission(catalog, check.permission) ==> (resource, check.permission, true) in told))
    }

    /** Every check of one request is answered by one and the same policy snapshot. */
    method Authorize(subject: string, checks: seq<Check>, store: Option<set<Known>>) returns (results: Option<seq<Answer>>)
      requires Valid()
      modifies this`decisions, this`known, this`told
      ensures Valid() && told >= old(told)
      ensures (exists i :: 0 <= i < |checks| && ParseResource(checks[i].resource).None?) ==> results.None?
      ensures results.None? ==> store.None? || exists i :: 0 <= i < |checks| && ParseResource(checks[i].resource).None?
      ensures results.Some? ==> |results.value| == |checks|
      ensures results.Some? ==> forall i :: 0 <= i < |checks| ==> Answers(subject, checks[i], results.value[i])
    {
      hide ParseResource, Enforce;
      if |checks| == 0 {
        return Some([]);
      }
      var normalized: seq<Known> := [];
      for i := 0 to |checks|
        invariant |normalized| == i
        invariant forall k :: 0 <= k < i ==> ParseResource(checks[k].resource) == Some(normalized[k].0) && normalized[k].1 == checks[k].permission
      {
        var resource := ParseResource(checks[i].resource);
        if resource.None? {
          return None;
        }
        normalized := normalized + [(resource.value, checks[i].permission)];
      }
      var found := KnownCustomPermissions(normalized, store);
      if found.None? {
        return None;
      }
      var knownNow := found.value;
      var answers: seq<Answer> := [];
      for i := 0 to |checks|
        invariant Valid() && told >= old(told) && |answers| == i
        invariant forall k :: 0 <= k < i ==> Answers(subject, checks[k], answers[k])
        invariant forall c :: c in normalized && IsCustomPermission(catalog, c.1) ==> c in knownNow && (c.0, c.1, knownNow[c]) in told
      {
        var check := normalized[i];
        assert check in normalized;
        if IsCustomPermission(catalog, check.1) && !knownNow[check] {
          answers := answers + [Answer(checks[i], false, true)];
        } else {
          var allowed := CachedEnforce(subject, check.0, check.1);
          answers := answers + [Answer(checks[i], allowed, false)];
        }
      }
      results := Some(answers);
    }
  }
}
