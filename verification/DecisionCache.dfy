/**
 * Concurrent requests over one decision cache.  Requests hold the policy lock for
 * reading while they look up, evaluate and fill; a reload holds it for writing
 * while it clears the cache and installs the new policy.
 */
module DecisionCache {
  import opened Common
  import opened Resources
  import opened Decision
  import opened Authorizer

  datatype Key = Key(subject: string, resource: Resource, action: string)

  /** Where a request is inside its read-locked section. */
  datatype Reader =
    | Outside
    | Inside
    | Missed(key: Key)
    | Computed(key: Key, verdict: bool)
    | Asked(permission: Known, answer: bool)

  datatype Writer = Absent | Locked | Cleared

  datatype State = State(
    facts: Facts, cache: map<Key, bool>, known: map<Known, bool>, told: set<(Known, bool)>, readers: seq<Reader>, writer: Writer)

  datatype Step =
    | Enter(reader: nat)
    | Serve(reader: nat, key: Key)
    | Miss(reader: nat, key: Key)
    | Evaluate(reader: nat)
    | Fill(reader: nat)
    | Ask(reader: nat, permission: Known, answer: bool)
    | FillKnown(reader: nat)
    | Leave(reader: nat)
    | Evict(keys: set<Key>, permissions: set<Known>)
    | LockForReload
    | Clear
    | Install(facts: Facts)
    | FailInstall

  predicate At(s: State, i: nat, reader: Reader) {
    i < |s.readers| && s.readers[i] == reader
  }

  predicate NobodyInside(readers: seq<Reader>) {
    forall i :: 0 <= i < |readers| ==> readers[i].Outside?
  }

  predicate Enabled(s: State, step: Step) {
    match step
    case Enter(i) => At(s, i, Outside) && s.writer.Absent?
    case Serve(i, key) => At(s, i, Inside) && key in s.cache
    case Miss(i, _) => At(s, i, Inside)
    case Evaluate(i) => i < |s.readers| && s.readers[i].Missed?
    case Fill(i) => i < |s.readers| && s.readers[i].Computed?
    case Ask(i, _, _) => At(s, i, Inside)
    case FillKnown(i) => i < |s.readers| && s.readers[i].Asked?
    case Leave(i) => At(s, i, Inside)
    case Evict(_, _) => true
    case LockForReload => s.writer.Absent? && NobodyInside(s.readers)
    case Clear => s.writer.Locked?
    case Install(_) => s.writer.Cleared?
    case FailInstall => s.writer.Cleared?
  }

  predicate Verdict(catalog: Catalog, facts: Facts, key: Key) {
    Enforce(catalog, facts, key.subject, key.resource, key.action)
  }

  function Apply(catalog: Catalog, s: State, step: Step): State
    requires Enabled(s, step)
  {
    match step
    case Enter(i) => s.(readers := s.readers[i := Inside])
    case Serve(_, _) => s
    case Miss(i, key) => s.(readers := s.readers[i := Missed(key)])
    case Evaluate(i) => s.(readers := s.readers[i := Computed(s.readers[i].key, Verdict(catalog, s.facts, s.readers[i].key))])
    case Fill(i) => s.(cache := s.cache[s.readers[i].key := s.readers[i].verdict], readers := s.readers[i := Inside])
    case Ask(i, permission, answer) =>
      s.(told := s.told + {(permission, answer)}, readers := s.readers[i := Asked(permission, answer)])
    case FillKnown(i) => s.(known := s.known[s.readers[i].permission := s.readers[i].answer], readers := s.readers[i := Inside])
    case Leave(i) => s.(readers := s.readers[i := Outside])
    case Evict(keys, permissions) => s.(cache := s.cache - keys, known := s.known - permissions)
    case LockForReload => s.(writer := Locked)
    case Clear => s.(cache := map[], known := map[], told := {}, writer := Cleared)
    case Install(facts) => s.(facts := facts, writer := Absent)
    case FailInstall => s.(writer := Absent)
  }

  ghost predicate Runs(catalog: Catalog, s: State, steps: seq<Step>, t: State)
    decreases |steps|
  {
    if steps == [] then t == s
    else Enabled(s, steps[0]) && Runs(catalog, Apply(catalog, s, steps[0]), steps[1..], t)
  }

  predicate Initial(s: State) {
    s.cache == map[] && s.known == map[] && s.told == {} && s.writer.Absent? && NobodyInside(s.readers)
  }

  // --------------------------------------------------------------------- invariant

  predicate ReaderCoherent(catalog: Catalog, s: State, reader: Reader) {
    match reader
    case Computed(key, verdict) => verdict == Verdict(catalog, s.facts, key)
    case Asked(permission, answer) => (permission, answer) in s.told
    case _ => true
  }

  predicate Coherent(catalog: Catalog, s: State) {
    && (forall key :: key in s.cache ==> s.cache[key] == Verdict(catalog, s.facts, key))
    && (forall k :: k in s.known ==> (k, s.known[k]) in s.told)
    && (forall i :: 0 <= i < |s.readers| ==> ReaderCoherent(catalog, s, s.readers[i]))
    && (!s.writer.Absent? ==> NobodyInside(s.readers))
    && (s.writer.Cleared? ==> s.cache == map[] && s.known == map[])
  }

  lemma StepCoherent(catalog: Catalog, s: State, step: Step)
    requires Coherent(catalog, s) && Enabled(s, step)
    ensures Coherent(catalog, Apply(catalog, s, step))
  {
    hide Verdict;
    var t := Apply(catalog, s, step);
    forall i | 0 <= i < |t.readers| ensures ReaderCoherent(catalog, t, t.readers[i]) {
      assert ReaderCoherent(catalog, s, s.readers[i]);
    }
  }

  lemma {:induction false} RunsCoherent(catalog: Catalog, s: State, steps: seq<Step>, t: State)
    requires Coherent(catalog, s) && Runs(catalog, s, steps, t)
    ensures Coherent(catalog, t)
    decreases |steps|
  {
    hide Coherent, Apply;
    if steps != [] {
      StepCoherent(catalog, s, steps[0]);
      RunsCoherent(catalog, Apply(catalog, s, steps[0]), steps[1..], t);
    }
  }

  /** In every run, a verdict served from the cache is the current policy's verdict. */
  lemma ServedVerdictIsCurrent(catalog: Catalog, start: State, steps: seq<Step>, s: State, i: nat, key: Key)
    requires Initial(start) && Runs(catalog, start, steps, s) && Enabled(s, Serve(i, key))
    ensures s.cache[key] <==> Enforce(catalog, s.facts, key.subject, key.resource, key.action)
  {
    hide Enforce;
    assert Coherent(catalog, start);
    RunsCoherent(catalog, start, steps, s);
  }

  /** A known-permission entry repeats an answer the store gave since the last reload. */
  lemma KnownEntriesAreAnswers(catalog: Catalog, start: State, steps: seq<Step>, s: State, permission: Known)
    requires Initial(start) && Runs(catalog, start, steps, s) && permission in s.known
    ensures (permission, s.known[permission]) in s.told
  {
    hide Verdict;
    assert Coherent(catalog, start);
    RunsCoherent(catalog, start, steps, s);
  }

  /** After a reload there is nothing cached, whether or not the new policy could be loaded. */
  lemma ReloadLeavesNothing(catalog: Catalog, start: State, steps: seq<Step>, s: State, step: Step)
    requires Initial(start) && Runs(catalog, start, steps, s) && (step.Install? || step.FailInstall?) && Enabled(s, step)
    ensures var t := Apply(catalog, s, step); t.cache == map[] && t.known == map[]
  {
    hide Verdict;
    assert Coherent(catalog, start);
    RunsCoherent(catalog, start, steps, s);
  }

  // ------------------------------------------------------------ what the lock is for

  /** The same steps without the lock: readers come in during a reload, and a reload waits for no one. */
  predicate UnlockedEnabled(s: State, step: Step) {
    match step
    case Enter(i) => At(s, i, Outside)
    case LockForReload => s.writer.Absent?
    case _ => Enabled(s, step)
  }

  function UnlockedApply(catalog: Catalog, s: State, step: Step): State
    requires UnlockedEnabled(s, step)
  {
    match step
    case Enter(i) => s.(readers := s.readers[i := Inside])
    case LockForReload => s.(writer := Locked)
    case _ => Apply(catalog, s, step)
  }

  ghost predicate UnlockedRuns(catalog: Catalog, s: State, steps: seq<Step>, t: State)
    decreases |steps|
  {
    if steps == [] then t == s
    else UnlockedEnabled(s, steps[0]) && UnlockedRuns(catalog, UnlockedApply(catalog, s, steps[0]), steps[1..], t)
  }

  /** A request that computes its verdict before a reload and stores it afterwards. */
  function FillAcrossInstall(i: nat, key: Key, facts: Facts): seq<Step> {
    [Enter(i), Miss(i, key), Evaluate(i), LockForReload, Clear, Install(facts), Fill(i)]
  }

  /** The lock is what this rests on: without it every installation that changes a verdict can leave the old one in the cache, to be served. */
  lemma FillAcrossInstallPoisons(catalog: Catalog, start: State, i: nat, key: Key, facts: Facts) returns (t: State)
    requires Initial(start) && i < |start.readers| && Verdict(catalog, facts, key) != Verdict(catalog, start.facts, key)
    ensures UnlockedRuns(catalog, start, FillAcrossInstall(i, key, facts), t)
    ensures Enabled(t, Serve(i, key)) && t.facts == facts && t.cache[key] != Verdict(catalog, t.facts, key)
  {
    hide Verdict;
    var before := Verdict(catalog, start.facts, key);
    var a := start.(readers := start.readers[i := Inside]);
    var b := a.(readers := a.readers[i := Missed(key)]);
    var c := b.(readers := b.readers[i := Computed(key, before)]);
    var d := c.(writer := Locked);
    var e := d.(cache := map[], known := map[], told := {}, writer := Cleared);
    var f := e.(facts := facts, writer := Absent);
    t := f.(cache := map[key := before], readers := f.readers[i := Inside]);
    var steps := FillAcrossInstall(i, key, facts);
    assert UnlockedRuns(catalog, t, steps[7..], t);
    assert UnlockedRuns(catalog, f, steps[6..], t) by { assert steps[6..][1..] == steps[7..]; }
    assert UnlockedRuns(catalog, e, steps[5..], t) by { assert steps[5..][1..] == steps[6..]; }
    assert UnlockedRuns(catalog, d, steps[4..], t) by { assert steps[4..][1..] == steps[5..]; }
    assert UnlockedRuns(catalog, c, steps[3..], t) by { assert steps[3..][1..] == steps[4..]; }
    assert UnlockedRuns(catalog, b, steps[2..], t) by { assert steps[2..][1..] == steps[3..]; }
    assert UnlockedRuns(catalog, a, steps[1..], t) by { assert steps[1..][1..] == steps[2..]; }
  }
}
