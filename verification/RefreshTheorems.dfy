/**
 * What the refresh protocol guarantees over whole runs: replicas converge to the
 * database, a revoked row survives on a replica only while a synchronous reload
 * for it is still under way, no deferred reload is lost, and without new
 * requests every replica comes to rest.
 */
module RefreshTheorems {
  import opened Common
  import opened RefreshProtocol

  lemma {:induction false} RunKeepsInv(s: State, steps: seq<Step>, t: State)
    requires Inv(s) && Runs(s, steps, t)
    ensures Inv(t)
    decreases |steps|
  {
    if steps != [] {
      StepInv(s, steps[0]);
      RunKeepsInv(Apply(s, steps[0]), steps[1..], t);
    }
  }

  ghost predicate Reachable(s: State) {
    exists start, steps :: Initial(start) && Runs(start, steps, s)
  }

  lemma ReachableInv(s: State)
    requires Reachable(s)
    ensures Inv(s)
  {
    var start, steps :| Initial(start) && Runs(start, steps, s);
    InitialInv(start);
    RunKeepsInv(start, steps, s);
  }

  // --------------------------------------------------------------- convergence

  /** Nothing is under way anywhere; a stopped worker's channels are read by no one. */
  predicate Quiet(s: State) {
    && s.scheduling == {} && s.waiting == {} && s.publishing == {} && s.bus == {}
    && (forall r :: 0 <= r < |s.replicas| ==> QuietReplica(s.replicas[r]))
  }

  predicate QuietReplica(replica: Replica) {
    && replica.lock.None?
    && (replica.worker.Stopped? || (replica.worker.Idle? && !replica.invalidation && !replica.deferred))
  }

  lemma NothingPendingAtRest(s: State, r: nat, why: Reason)
    requires Quiet(s) && r < |s.replicas| && !s.replicas[r].worker.Stopped?
    ensures !Explains(s, r, why)
  {
    assert QuietReplica(s.replicas[r]);
    match why
    case DeferredAt(q) => assert q < |s.replicas| ==> QuietReplica(s.replicas[q]);
    case PublisherAt(q) => assert q < |s.replicas| ==> QuietReplica(s.replicas[q]);
    case _ =>
  }

  /** At rest, every replica that nothing left behind holds exactly the database. */
  lemma Convergence(s: State, r: nat)
    requires Reachable(s) && Quiet(s)
    requires r < |s.replicas| && r !in s.broken
    ensures s.WellFormed() && s.Contents(r) == s.Database()
  {
    ReachableInv(s);
    assert Follows(s, r) && QuietReplica(s.replicas[r]);
    forall why ensures !Explains(s, r, why) {
      NothingPendingAtRest(s, r, why);
    }
  }

  /** Steps other than a failure, a shutdown or a late subscription. */
  predicate Clean(step: Step) {
    match step
    case OfRequest(a) => !a.FailPublish?
    case OfLoad(_, a) => !a.FailLoad?
    case OfWorker(_, a) => !a.WorkerFailPublish? && !a.Stop?
    case OfBus(a) => a.Deliver?
  }

  lemma {:induction false} CleanRunBreaksNothing(s: State, steps: seq<Step>, t: State)
    requires s.broken == {} && (forall r :: 0 <= r < |s.replicas| ==> !s.replicas[r].worker.Stopped?)
    requires Runs(s, steps, t) && forall k :: 0 <= k < |steps| ==> Clean(steps[k])
    ensures t.broken == {}
    decreases |steps|
  {
    if steps != [] {
      assert Clean(steps[0]);
      CleanRunBreaksNothing(Apply(s, steps[0]), steps[1..], t);
    }
  }

  /**
   * In every interleaving without failures, losses, shutdowns or late
   * subscriptions, all replicas equal the database whenever nothing is pending.
   */
  lemma CleanRunsConverge(start: State, steps: seq<Step>, s: State)
    requires Initial(start) && Runs(start, steps, s) && Quiet(s)
    requires forall k :: 0 <= k < |steps| ==> Clean(steps[k])
    ensures s.WellFormed()
    ensures forall r :: 0 <= r < |s.replicas| ==> s.Contents(r) == s.Database()
  {
    CleanRunBreaksNothing(start, steps, s);
    ReachableInv(s);
    forall r | 0 <= r < |s.replicas| ensures s.Contents(r) == s.Database() {
      Convergence(s, r);
    }
  }

  // ---------------------------------------------------------------- over-grants

  predicate RemovesPolicy(log: seq<Tables>, v: nat, x: Policy) {
    0 < v < |log| && x in log[v - 1].policies && x !in log[v].policies
  }

  predicate RemovesRelation(log: seq<Tables>, v: nat, x: Relation) {
    0 < v < |log| && x in log[v - 1].relations && x !in log[v].relations
  }

  lemma {:induction false} SomeCommitRemovedPolicy(log: seq<Tables>, at: nat, to: nat, x: Policy) returns (v: nat)
    requires at <= to < |log| && x in log[at].policies && x !in log[to].policies
    ensures at < v <= to && RemovesPolicy(log, v, x)
  {
    v := to;
    if x !in log[to - 1].policies {
      v := SomeCommitRemovedPolicy(log, at, to - 1, x);
    }
  }

  lemma {:induction false} SomeCommitRemovedRelation(log: seq<Tables>, at: nat, to: nat, x: Relation) returns (v: nat)
    requires at <= to < |log| && x in log[at].relations && x !in log[to].relations
    ensures at < v <= to && RemovesRelation(log, v, x)
  {
    v := to;
    if x !in log[to - 1].relations {
      v := SomeCommitRemovedRelation(log, at, to - 1, x);
    }
  }

  /** Commit v, which removed x, is a synchronous request's, and the refresh of that request or a later one is on its way to r. */
  ghost predicate PolicyRemovalUnderWay(s: State, r: nat, at: nat, x: Policy)
    requires r < |s.replicas|
  {
    exists v: nat :: at < v && RemovesPolicy(s.log, v, x) && RevocationPending(s, r, v)
  }

  ghost predicate RelationRemovalUnderWay(s: State, r: nat, at: nat, x: Relation)
    requires r < |s.replicas|
  {
    exists v: nat :: at < v && RemovesRelation(s.log, v, x) && RevocationPending(s, r, v)
  }

  /**
   * A policy that replica r serves although the database no longer has it is
   * explained: r was left behind, or r's mutex is held so that no decision can
   * be taken, or some commit newer than what r has read removed the policy and
   * the synchronous refresh of that very request, or of a later one, has not
   * reached r yet.  Deferred reloads and other requests' messages explain nothing.
   */
  lemma NoUnexplainedOverGrant(s: State, r: nat, x: Policy)
    requires Reachable(s) && r < |s.replicas|
    ensures s.WellFormed()
    ensures x in s.Contents(r).policies && x !in s.Database().policies
            ==> r in s.broken || s.replicas[r].lock.Some? || PolicyRemovalUnderWay(s, r, s.replicas[r].snapshot.policiesAt, x)
  {
    ReachableInv(s);
    assert OverGrantExplained(s, r) && WellFormedReplica(s.replicas[r], |s.log|);
    if x in s.Contents(r).policies && x !in s.Database().policies && r !in s.broken && s.replicas[r].lock.None? {
      var v := SomeCommitRemovedPolicy(s.log, s.replicas[r].snapshot.policiesAt, s.Latest(), x);
      assert Misses(s.replicas[r], s.log, v);
    }
  }

  lemma NoUnexplainedStaleHierarchy(s: State, r: nat, x: Relation)
    requires Reachable(s) && r < |s.replicas|
    ensures s.WellFormed()
    ensures x in s.Contents(r).relations && x !in s.Database().relations
            ==> r in s.broken || s.replicas[r].lock.Some? || RelationRemovalUnderWay(s, r, s.replicas[r].snapshot.relationsAt, x)
  {
    ReachableInv(s);
    assert OverGrantExplained(s, r) && WellFormedReplica(s.replicas[r], |s.log|);
    if x in s.Contents(r).relations && x !in s.Database().relations && r !in s.broken && s.replicas[r].lock.None? {
      var v := SomeCommitRemovedRelation(s.log, s.replicas[r].snapshot.relationsAt, s.Latest(), x);
      assert Misses(s.replicas[r], s.log, v);
    }
  }

  /** The same for the rows a load under way has already read. */
  lemma NoUnexplainedOverGrantInLoad(s: State, r: nat, at: nat, x: Policy)
    requires Reachable(s) && r < |s.replicas|
    requires s.replicas[r].lock.Some? && s.replicas[r].lock.value.policiesAt == Some(at)
    ensures s.WellFormed() && at < |s.log|
    ensures x in s.log[at].policies && x !in s.Database().policies ==> r in s.broken || PolicyRemovalUnderWay(s, r, at, x)
  {
    ReachableInv(s);
    assert OverGrantExplained(s, r) && WellFormedReplica(s.replicas[r], |s.log|);
    if x in s.log[at].policies && x !in s.Database().policies && r !in s.broken {
      var v := SomeCommitRemovedPolicy(s.log, at, s.Latest(), x);
      assert Misses(s.replicas[r], s.log, v);
    }
  }

  lemma NoUnexplainedStaleHierarchyInLoad(s: State, r: nat, at: nat, x: Relation)
    requires Reachable(s) && r < |s.replicas|
    requires s.replicas[r].lock.Some? && s.replicas[r].lock.value.relationsAt == Some(at)
    ensures s.WellFormed() && at < |s.log|
    ensures x in s.log[at].relations && x !in s.Database().relations ==> r in s.broken || RelationRemovalUnderWay(s, r, at, x)
  {
    ReachableInv(s);
    assert OverGrantExplained(s, r) && WellFormedReplica(s.replicas[r], |s.log|);
    if x in s.log[at].relations && x !in s.Database().relations && r !in s.broken {
      var v := SomeCommitRemovedRelation(s.log, at, s.Latest(), x);
      assert Misses(s.replicas[r], s.log, v);
    }
  }

  /** A commit that removes something is never a deferred request's. */
  lemma RemovalsAreSynchronous(s: State, step: Step, v: nat)
    requires s.WellFormed() && Enabled(s, step)
    requires v == |s.log| && (DropsPolicies(Apply(s, step).log, v) || DropsRelations(Apply(s, step).log, v))
    ensures exists q :: Committed(q, v) in Apply(s, step).waiting
  {
    assert step.OfRequest? && step.request.CommitChange?;
    assert Committed(step.request.replica, v) in Apply(s, step).waiting;
  }

  lemma {:induction false} RunsOnlyMoveForward(s: State, steps: seq<Step>, t: State, r: nat)
    requires s.WellFormed() && Runs(s, steps, t) && r < |s.replicas|
    ensures t.WellFormed() && |s.replicas| <= |t.replicas| && |s.log| <= |t.log|
    ensures s.replicas[r].snapshot.policiesAt <= t.replicas[r].snapshot.policiesAt
    ensures s.replicas[r].snapshot.relationsAt <= t.replicas[r].snapshot.relationsAt
    decreases |steps|
  {
    if steps != [] {
      StepWellFormed(s, steps[0]);
      StepMovesForward(s, steps[0], r);
      RunsOnlyMoveForward(Apply(s, steps[0]), steps[1..], t, r);
    }
  }

  lemma StepMovesForward(s: State, step: Step, r: nat)
    requires s.WellFormed() && Enabled(s, step) && r < |s.replicas|
    ensures r < |Apply(s, step).replicas|
    ensures var now := Apply(s, step).replicas[r].snapshot;
            s.replicas[r].snapshot.policiesAt <= now.policiesAt && s.replicas[r].snapshot.relationsAt <= now.relationsAt
  {
    assert WellFormedReplica(s.replicas[r], |s.log|);
  }

  /**
   * Once a synchronous request has reloaded, and so before it answers, its
   * replica never again serves a policy that no commit from its own on contains.
   */
  lemma RevocationVisibleBeforeAnswer(s: State, steps: seq<Step>, t: State, c: Committed, x: Policy)
    requires Reachable(s) && c in s.publishing && Runs(s, steps, t)
    requires forall v :: c.version <= v < |t.log| ==> x !in t.log[v].policies
    ensures t.WellFormed() && c.replica < |t.replicas|
    ensures x !in t.Contents(c.replica).policies
  {
    ReachableInv(s);
    assert SeesOwnCommit(s, c);
    RunsOnlyMoveForward(s, steps, t, c.replica);
  }

  /** And no relation of the hierarchy that no commit from its own on contains. */
  lemma StaleRelationGoneBeforeAnswer(s: State, steps: seq<Step>, t: State, c: Committed, x: Relation)
    requires Reachable(s) && c in s.publishing && Runs(s, steps, t)
    requires forall v :: c.version <= v < |t.log| ==> x !in t.log[v].relations
    ensures t.WellFormed() && c.replica < |t.replicas|
    ensures x !in t.Contents(c.replica).relations
  {
    ReachableInv(s);
    assert SeesOwnCommit(s, c);
    RunsOnlyMoveForward(s, steps, t, c.replica);
  }

  /** What the replica of an answered request serves was read from its commit or later ones, policies first. */
  lemma ServedIsRecent(s: State, steps: seq<Step>, t: State, c: Committed) returns (policiesAt: nat, relationsAt: nat)
    requires Reachable(s) && c in s.publishing && Runs(s, steps, t)
    ensures t.WellFormed() && c.replica < |t.replicas|
    ensures c.version <= policiesAt <= relationsAt < |t.log|
    ensures t.Contents(c.replica) == Tables(t.log[policiesAt].policies, t.log[relationsAt].relations)
  {
    ReachableInv(s);
    assert SeesOwnCommit(s, c);
    RunsOnlyMoveForward(s, steps, t, c.replica);
    assert WellFormedReplica(t.replicas[c.replica], |t.log|);
    policiesAt, relationsAt := t.replicas[c.replica].snapshot.policiesAt, t.replicas[c.replica].snapshot.relationsAt;
  }

  // ------------------------------------------------------ deferred reloads, rest

  /**
   * A deferred reload that was asked for and has not begun is in the channel or
   * in the worker's hands, unless the worker was shut down.
   */
  lemma NoDeferredReloadIsLost(s: State, r: nat)
    requires Reachable(s) && r < |s.replicas|
    requires s.replicas[r].served < s.replicas[r].asked && !s.replicas[r].worker.Stopped?
    ensures s.replicas[r].deferred || s.replicas[r].worker.Debouncing? || s.replicas[r].worker == Waiting(Deferred)
  {
    ReachableInv(s);
    assert DeferredKept(s.replicas[r]);
  }

  /** Steps that finish work already under way. */
  predicate Progress(step: Step) {
    match step
    case OfRequest(a) => a.Schedule? || a.BeginByRequest? || a.Publish?
    case OfLoad(_, a) => !a.FailLoad?
    case OfWorker(_, a) => a.TakeInvalidation? || a.TakeDeferred? || a.EndDebounce? || a.WorkerPublish?
    case OfBus(a) => a.Deliver?
  }

  function Total(replicas: seq<Replica>, weight: Replica -> nat): nat {
    if replicas == [] then 0 else weight(replicas[0]) + Total(replicas[1..], weight)
  }

  lemma {:induction false} TotalAfterUpdate(replicas: seq<Replica>, weight: Replica -> nat, i: nat, replica: Replica)
    requires i < |replicas|
    ensures Total(replicas[i := replica], weight) + weight(replicas[i]) == Total(replicas, weight) + weight(replica)
  {
    if i == 0 {
      assert replicas[i := replica][1..] == replicas[1..];
    } else {
      assert replicas[i := replica][1..] == replicas[1..][i - 1 := replica];
      TotalAfterUpdate(replicas[1..], weight, i - 1, replica);
    }
  }

  /** Publications a replica still owes. */
  function Publications(replica: Replica): nat {
    (if replica.deferred && !replica.worker.Stopped? then 1 else 0)
    + (if replica.worker.Debouncing? || replica.worker.Publishing? || replica.worker == Waiting(Deferred) then 1 else 0)
    + (if replica.lock.Some? && Publishes(replica.lock.value.loader) then 1 else 0)
  }

  /** Steps a replica still has before it, apart from what publications cause. */
  function Backlog(replica: Replica): nat {
    (if replica.invalidation then 16 else 0)
    + (if replica.deferred then 18 else 0)
    + (match replica.worker
       case Debouncing => 16
       case Waiting(_) => 14
       case Publishing => 4
       case _ => 0)
    + (match replica.lock
       case None => 0
       case Some(load) =>
         12 - (if load.policiesAt.Some? then 2 else 0) - (if load.relationsAt.Some? then 2 else 0))
  }

  function OwedPublications(s: State): nat {
    |s.scheduling| + |s.waiting| + |s.publishing| + Total(s.replicas, Publications)
  }

  function OwedSteps(s: State): nat {
    20 * |s.scheduling| + 14 * |s.waiting| + 4 * |s.publishing| + 18 * |s.bus| + Total(s.replicas, Backlog)
  }

  predicate CloserToRest(t: State, s: State) {
    OwedPublications(t) < OwedPublications(s)
    || (OwedPublications(t) == OwedPublications(s) && OwedSteps(t) < OwedSteps(s))
  }

  lemma ReplicaUpdateCost(s: State, r: nat, replica: Replica)
    requires r < |s.replicas|
    ensures var rs := s.replicas[r := replica];
      && Total(rs, Publications) + Publications(s.replicas[r]) == Total(s.replicas, Publications) + Publications(replica)
      && Total(rs, Backlog) + Backlog(s.replicas[r]) == Total(s.replicas, Backlog) + Backlog(replica)
  {
    TotalAfterUpdate(s.replicas, Publications, r, replica);
    TotalAfterUpdate(s.replicas, Backlog, r, replica);
  }

  lemma ScheduleProgress(s: State, c: Committed)
    requires s.WellFormed() && RequestEnabled(s, Schedule(c))
    ensures CloserToRest(RequestNext(s, Schedule(c)), s)
  {
    ReplicaUpdateCost(s, c.replica, RequestNext(s, Schedule(c)).replicas[c.replica]);
    assert |s.scheduling - {c}| == |s.scheduling| - 1;
  }

  lemma BeginByRequestProgress(s: State, c: Committed)
    requires s.WellFormed() && RequestEnabled(s, BeginByRequest(c))
    ensures CloserToRest(RequestNext(s, BeginByRequest(c)), s)
  {
    ReplicaUpdateCost(s, c.replica, RequestNext(s, BeginByRequest(c)).replicas[c.replica]);
    assert |s.waiting - {c}| == |s.waiting| - 1;
  }

  lemma RequestProgress(s: State, a: RequestStep)
    requires s.WellFormed() && RequestEnabled(s, a) && Progress(OfRequest(a))
    ensures CloserToRest(RequestNext(s, a), s)
  {
    match a
    case Schedule(c) => ScheduleProgress(s, c);
    case BeginByRequest(c) => BeginByRequestProgress(s, c);
    case Publish(c) =>
      assert |s.publishing - {c}| == |s.publishing| - 1;
  }

  lemma LoadProgress(s: State, r: nat, a: LoadStep)
    requires s.WellFormed() && r < |s.replicas| && LoadEnabled(s.replicas[r], a) && !a.FailLoad?
    ensures CloserToRest(LoadNext(s, r, a), s)
  {
    assert WellFormedReplica(s.replicas[r], |s.log|);
    ReplicaUpdateCost(s, r, Loaded(s.replicas[r], a, s.Latest()));
    if a.Install? && s.replicas[r].lock.value.loader.Request? {
      var c := Committed(r, s.replicas[r].lock.value.loader.version);
      assert |s.publishing + {c}| <= |s.publishing| + 1 by {
        assert s.publishing + {c} == s.publishing + ({c} - s.publishing);
      }
    }
  }

  lemma WorkerProgress(s: State, r: nat, a: WorkerStep)
    requires r < |s.replicas| && WorkerEnabled(s.replicas[r], a) && Progress(OfWorker(r, a))
    ensures CloserToRest(WorkerNext(s, r, a), s)
  {
    ReplicaUpdateCost(s, r, Worked(s.replicas[r], a));
  }

  lemma BusProgress(s: State, a: BusStep)
    requires BusEnabled(s, a) && a.Deliver?
    ensures CloserToRest(BusNext(s, a), s)
  {
    var m := a.message;
    assert |s.bus - {m}| == |s.bus| - 1;
    if m.origin != m.target {
      ReplicaUpdateCost(s, m.target, Told(s.replicas[m.target], m));
    }
  }

  /** Every step that finishes pending work brings the system closer to rest. */
  lemma ProgressTerminates(s: State, step: Step)
    requires s.WellFormed() && Enabled(s, step) && Progress(step)
    ensures CloserToRest(Apply(s, step), s)
  {
    match step
    case OfRequest(a) => RequestProgress(s, a);
    case OfLoad(r, a) => LoadProgress(s, r, a);
    case OfWorker(r, a) => WorkerProgress(s, r, a);
    case OfBus(a) => BusProgress(s, a);
  }

  /** While something is under way, some step finishes part of it: no deadlock. */
  lemma SomeProgressIsEnabled(s: State) returns (step: Step)
    requires s.WellFormed() && !Quiet(s)
    ensures Enabled(s, step) && Progress(step)
  {
    if r :| 0 <= r < |s.replicas| && s.replicas[r].lock.Some? {
      var load := s.replicas[r].lock.value;
      step := OfLoad(r, if load.policiesAt.None? then ReadPolicies else if load.relationsAt.None? then ReadRelations else Install);
    } else if c :| c in s.scheduling {
      step := OfRequest(Schedule(c));
    } else if c :| c in s.waiting {
      step := OfRequest(BeginByRequest(c));
    } else if c :| c in s.publishing {
      step := OfRequest(Publish(c));
    } else if m :| m in s.bus {
      step := OfBus(Deliver(m));
    } else {
      var r :| 0 <= r < |s.replicas| && !QuietReplica(s.replicas[r]);
      var replica := s.replicas[r];
      assert WellFormedReplica(replica, |s.log|);
      match replica.worker
      case Idle => step := OfWorker(r, if replica.invalidation then TakeInvalidation else TakeDeferred);
      case Debouncing => step := OfWorker(r, EndDebounce);
      case Waiting(_) => step := OfLoad(r, BeginByWorker);
      case Publishing => step := OfWorker(r, WorkerPublish);
    }
  }

  lemma ProgressCommitsNothing(s: State, step: Step)
    requires Enabled(s, step) && Progress(step)
    ensures Apply(s, step).log == s.log
  {
  }

  /** From every well-formed state the work under way can be finished. */
  lemma {:induction false} ComesToRest(s: State) returns (steps: seq<Step>, t: State)
    requires s.WellFormed()
    ensures Runs(s, steps, t) && Quiet(t) && t.log == s.log
    ensures forall k :: 0 <= k < |steps| ==> Progress(steps[k])
    decreases OwedPublications(s), OwedSteps(s)
  {
    if Quiet(s) {
      steps, t := [], s;
    } else {
      var step := SomeProgressIsEnabled(s);
      StepWellFormed(s, step);
      ProgressTerminates(s, step);
      ProgressCommitsNothing(s, step);
      var rest, last := ComesToRest(Apply(s, step));
      steps, t := [step] + rest, last;
      assert steps[1..] == rest;
    }
  }

  lemma {:induction false} RunsCompose(s: State, first: seq<Step>, m: State, second: seq<Step>, t: State)
    requires Runs(s, first, m) && Runs(m, second, t)
    ensures Runs(s, first + second, t)
    decreases |first|
  {
    if first == [] {
      assert first + second == second;
    } else {
      RunsCompose(Apply(s, first[0]), first[1..], m, second, t);
      assert (first + second)[1..] == first[1..] + second;
    }
  }

  /** Once requests stop, every replica nothing left behind ends up with the database. */
  lemma EventualConvergence(s: State) returns (steps: seq<Step>, t: State)
    requires Reachable(s)
    ensures Runs(s, steps, t) && (forall k :: 0 <= k < |steps| ==> Progress(steps[k]))
    ensures t.WellFormed() && s.WellFormed() && t.Database() == s.Database()
    ensures forall r :: 0 <= r < |t.replicas| && r !in t.broken ==> t.Contents(r) == s.Database()
  {
    hide Follows, OverGrantExplained, DeferredKept, SeesOwnCommit, WellFormedReplica, Quiet, Initial, Progress;
    ReachableInv(s);
    steps, t := ComesToRest(s);
    var start, before :| Initial(start) && Runs(start, before, s);
    RunsCompose(start, before, s, steps, t);
    ReachableInv(t);
    forall r | 0 <= r < |t.replicas| && r !in t.broken ensures t.Contents(r) == s.Database() {
      Convergence(t, r);
    }
  }

  // ----------------------------------------------------------- repair and its gap

  /** The worker's load, once it waits for the mutex. */
  function LoadRun(r: nat): seq<Step> {
    [OfLoad(r, BeginByWorker), OfLoad(r, ReadPolicies), OfLoad(r, ReadRelations), OfLoad(r, Install)]
  }

  lemma LoadRepairs(s: State, r: nat) returns (t: State)
    requires s.WellFormed() && r < |s.replicas| && s.replicas[r].worker.Waiting? && s.replicas[r].lock.None?
    ensures Runs(s, LoadRun(r), t) && t.WellFormed() && r < |t.replicas|
    ensures r !in t.broken && t.Database() == s.Database() && t.Contents(r) == s.Database()
  {
    hide WellFormedReplica;
    var steps := LoadRun(r);
    var a := Apply(s, steps[0]);
    StepWellFormed(s, steps[0]);
    var b := Apply(a, steps[1]);
    StepWellFormed(a, steps[1]);
    var c := Apply(b, steps[2]);
    StepWellFormed(b, steps[2]);
    t := Apply(c, steps[3]);
    StepWellFormed(c, steps[3]);
    assert Runs(c, [steps[3]], t);
    assert Runs(b, [steps[2], steps[3]], t);
    assert Runs(a, [steps[1], steps[2], steps[3]], t);
    assert steps[1..] == [steps[1], steps[2], steps[3]];
  }

  /** A periodic reload repairs a replica that was left behind. */
  lemma TickRepairs(s: State, r: nat) returns (t: State)
    requires s.WellFormed() && r < |s.replicas| && s.replicas[r].worker.Idle? && s.replicas[r].lock.None?
    ensures Runs(s, [OfWorker(r, TakeTick)] + LoadRun(r), t) && t.WellFormed() && r < |t.replicas|
    ensures r !in t.broken && t.Database() == s.Database() && t.Contents(r) == s.Database()
  {
    var tick := OfWorker(r, TakeTick);
    StepWellFormed(s, tick);
    t := LoadRepairs(Apply(s, tick), r);
    assert ([tick] + LoadRun(r))[1..] == LoadRun(r);
  }

  /** However many calls asked for a deferred reload during the debounce, the one load that ends it serves them all and leaves no signal. */
  lemma OneLoadAbsorbsTheBurst(s: State, r: nat) returns (t: State)
    requires s.WellFormed() && r < |s.replicas| && s.replicas[r].worker.Debouncing? && s.replicas[r].lock.None?
    ensures Runs(s, [OfWorker(r, EndDebounce), OfLoad(r, BeginByWorker)], t) && r < |t.replicas|
    ensures t.replicas[r].lock == Some(Load(Worker(Deferred), None, None))
    ensures !t.replicas[r].deferred && t.replicas[r].served == t.replicas[r].asked == s.replicas[r].asked
  {
    var end, begin := OfWorker(r, EndDebounce), OfLoad(r, BeginByWorker);
    var mid := Apply(s, end);
    t := Apply(mid, begin);
    assert [end, begin][1..] == [begin] && [begin][1..] == [];
    assert Runs(t, [], t);
    assert Runs(mid, [begin], t);
  }

  /** No load of replica r begins in this step. */
  predicate BeginsNoLoad(step: Step, r: nat) {
    match step
    case OfRequest(a) => a.BeginByRequest? ==> a.request.replica != r
    case OfLoad(q, a) => a.BeginByWorker? ==> q != r
    case _ => true
  }

  /** Only a load changes what a replica serves. */
  lemma {:induction false} OnlyLoadsChangeContents(s: State, steps: seq<Step>, t: State, r: nat)
    requires s.WellFormed() && Runs(s, steps, t) && r < |s.replicas| && s.replicas[r].lock.None?
    requires forall k :: 0 <= k < |steps| ==> BeginsNoLoad(steps[k], r)
    ensures t.WellFormed() && r < |t.replicas| && t.replicas[r].lock.None?
    ensures t.replicas[r].snapshot == s.replicas[r].snapshot && t.Contents(r) == s.Contents(r)
    decreases |steps|
  {
    if steps != [] {
      var next := Apply(s, steps[0]);
      StepWellFormed(s, steps[0]);
      assert BeginsNoLoad(steps[0], r);
      StepKeepsContents(s, steps[0], r);
      OnlyLoadsChangeContents(next, steps[1..], t, r);
    }
  }

  lemma StepKeepsContents(s: State, step: Step, r: nat)
    requires s.WellFormed() && Enabled(s, step) && Apply(s, step).WellFormed()
    requires r < |s.replicas| && s.replicas[r].lock.None? && BeginsNoLoad(step, r)
    ensures r < |Apply(s, step).replicas| && Apply(s, step).replicas[r].lock.None?
    ensures Apply(s, step).replicas[r].snapshot == s.replicas[r].snapshot && Apply(s, step).Contents(r) == s.Contents(r)
  {
    assert WellFormedReplica(s.replicas[r], |s.log|);
    assert Apply(s, step).log[..|s.log|] == s.log;
  }

  /**
   * A replica loads its first policy before it subscribes.  As long as it begins
   * no other load, it goes on serving the tables it read then, and equals the
   * database exactly as long as the database still, or again, has those tables.
   */
  lemma LateSubscriptionIsStaleIff(s: State, loaded: Snapshot, steps: seq<Step>, t: State)
    requires s.WellFormed() && loaded.policiesAt <= loaded.relationsAt < |s.log|
    requires Runs(Apply(s, OfBus(Join(loaded))), steps, t)
    requires forall k :: 0 <= k < |steps| ==> BeginsNoLoad(steps[k], |s.replicas|)
    ensures t.WellFormed() && |s.replicas| < |t.replicas| && t.Contents(|s.replicas|) == Read(s.log, loaded)
    ensures t.Contents(|s.replicas|) == t.Database() <==>
            s.log[loaded.policiesAt].policies == t.Database().policies && s.log[loaded.relationsAt].relations == t.Database().relations
  {
    StepWellFormed(s, OfBus(Join(loaded)));
    OnlyLoadsChangeContents(Apply(s, OfBus(Join(loaded))), steps, t, |s.replicas|);
  }

  /** What a load reads whose two queries see these commits. */
  function Read(log: seq<Tables>, at: Snapshot): Tables
    requires at.policiesAt < |log| && at.relationsAt < |log|
  {
    Tables(log[at.policiesAt].policies, log[at.relationsAt].relations)
  }

  /** A change, and then everything it sets off, without a failure. */
  lemma ChangeComesToRest(start: State, change: Tables) returns (steps: seq<Step>, t: State)
    requires Initial(start) && start.replicas != []
    ensures Runs(start, steps, t) && forall k :: 0 <= k < |steps| ==> Clean(steps[k])
    ensures Quiet(t) && t.WellFormed() && |t.replicas| == |start.replicas| && t.log == [start.log[0], change]
    ensures forall r :: 0 <= r < |t.replicas| ==> t.Contents(r) == change
  {
    hide Follows, OverGrantExplained, DeferredKept, SeesOwnCommit, WellFormedReplica, Quiet;
    var commit := OfRequest(CommitChange(0, change));
    InitialInv(start);
    StepWellFormed(start, commit);
    var next := Apply(start, commit);
    var rest, quiet := ComesToRest(next);
    RunKeepsReplicas(next, rest, quiet);
    steps, t := [commit] + rest, quiet;
    assert steps[1..] == rest;
    CleanRunsConverge(start, steps, quiet);
  }

  /**
   * And this happens: from any start and for any change of the tables there is a
   * run without any failure, loss or shutdown that comes to rest with a new
   * replica serving the tables from before the change.
   */
  lemma LateSubscriptionGoesStale(start: State, change: Tables) returns (steps: seq<Step>, t: State)
    requires Initial(start) && start.replicas != [] && change != start.log[0]
    ensures Runs(start, steps + [OfBus(Join(Snapshot(0, 0)))], t) && forall k :: 0 <= k < |steps| ==> Clean(steps[k])
    ensures Quiet(t) && t.WellFormed() && |t.replicas| == |start.replicas| + 1
    ensures t.Contents(|start.replicas|) == start.log[0] != t.Database() == change
    ensures forall r :: 0 <= r < |start.replicas| ==> t.Contents(r) == change
  {
    hide Initial, Clean;
    var quiet;
    steps, quiet := ChangeComesToRest(start, change);
    var join := OfBus(Join(Snapshot(0, 0)));
    StepWellFormed(quiet, join);
    t := Apply(quiet, join);
    RunsCompose(start, steps, quiet, [join], t) by {
      assert Runs(quiet, [join], t);
    }
    StepKeepsAll(quiet, join);
  }

  lemma StepKeepsAll(s: State, step: Step)
    requires s.WellFormed() && Enabled(s, step) && Apply(s, step).WellFormed() && step.OfBus?
    ensures forall r :: 0 <= r < |s.replicas| ==> Apply(s, step).Contents(r) == s.Contents(r)
  {
  }

  lemma {:induction false} RunKeepsReplicas(s: State, steps: seq<Step>, t: State)
    requires s.WellFormed() && Runs(s, steps, t) && forall k :: 0 <= k < |steps| ==> Progress(steps[k])
    ensures t.WellFormed() && |t.replicas| == |s.replicas|
    decreases |steps|
  {
    if steps != [] {
      StepWellFormed(s, steps[0]);
      assert Progress(steps[0]);
      RunKeepsReplicas(Apply(s, steps[0]), steps[1..], t);
    }
  }
}
