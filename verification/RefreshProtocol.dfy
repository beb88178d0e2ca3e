/**
 * How N replicas of the authorizer follow one database.
 *
 * A mutating request commits, then either reloads its own replica's policy
 * synchronously and publishes an invalidation, or signals the replica's worker,
 * which reloads and publishes later.  Signals go through channels of capacity
 * one, a replica drops the invalidations it published itself, and a policy load
 * reads the policies and the hierarchy in two separate queries.
 *
 * Every commit is kept in `log`, so a snapshot is the pair of log positions its
 * two reads saw.
 */
module RefreshProtocol {
  import opened Common
  import D = Decision
  import H = Resources

  /** One row of the policy query. */
  type Policy = D.PolicyRow

  /** One row of the hierarchy query: a resource and its parent. */
  type Relation = (H.Resource, H.Resource)

  /** The two tables a policy load reads, as of one commit. */
  datatype Tables = Tables(policies: set<Policy>, relations: set<Relation>)

  /** Log positions: which commit each of the two reads saw. */
  datatype Snapshot = Snapshot(policiesAt: nat, relationsAt: nat)

  /** A load in progress; it holds the replica's policy mutex. */
  datatype Load = Load(loader: Loader, policiesAt: Option<nat>, relationsAt: Option<nat>)

  datatype Loader = Request(version: nat) | Worker(cause: Cause)

  datatype Cause = Tick | Invalidation | Deferred

  /** The program counter of the goroutine that processes invalidations. */
  datatype WorkerState = Idle | Debouncing | Waiting(cause: Cause) | Loading | Publishing | Stopped

  /**
   * `invalidation` and `deferred` say whether the capacity-one channel is full.
   * `asked` counts the calls that requested a deferred reload; `served` counts
   * those of them that happened before the latest load began.
   * `heard` is the newest commit of a synchronous request whose invalidation has
   * arrived since the latest load began, and 0 if there is none.
   */
  datatype Replica = Replica(
    snapshot: Snapshot,
    lock: Option<Load>,
    worker: WorkerState,
    invalidation: bool,
    deferred: bool,
    asked: nat,
    served: nat,
    heard: nat)

  /** A request on `replica` whose transaction is log entry `version`. */
  datatype Committed = Committed(replica: nat, version: nat)

  /**
   * One delivery of publication number `serial`.  `version` is the commit of the
   * synchronous request that published, and 0 for a deferred reload; the message
   * itself carries neither number.
   */
  datatype Message = Message(origin: nat, target: nat, serial: nat, version: nat)

  /**
   * `scheduling`: granting requests between commit and signal.
   * `waiting`: requests between commit and the start of their synchronous load.
   * `publishing`: requests between the end of that load and their publication.
   * `broken`: replicas some failed load, lost message, shutdown or late
   * subscription may have left behind, and no load has begun since.
   */
  datatype State = State(
    log: seq<Tables>,
    replicas: seq<Replica>,
    scheduling: set<Committed>,
    waiting: set<Committed>,
    publishing: set<Committed>,
    bus: set<Message>,
    published: nat,
    broken: set<nat>)
  {
    /** The position of the last commit. */
    function Latest(): nat {
      if |log| == 0 then 0 else |log| - 1
    }

    function Database(): Tables
      requires |log| > 0
    {
      log[Latest()]
    }

    /** What replica r evaluates decisions against. */
    function Contents(r: nat): Tables
      requires WellFormed() && r < |replicas|
    {
      Tables(log[replicas[r].snapshot.policiesAt].policies, log[replicas[r].snapshot.relationsAt].relations)
    }

    ghost predicate WellFormed() {
      && |log| > 0
      && (forall r :: 0 <= r < |replicas| ==> WellFormedReplica(replicas[r], |log|))
      && (forall c :: c in scheduling ==> c.replica < |replicas| && c.version < |log|)
      && (forall c :: c in waiting ==> c.replica < |replicas| && c.version < |log|)
      && (forall c :: c in publishing ==> c.replica < |replicas| && c.version < |log|)
      && (forall m :: m in bus ==> m.origin < |replicas| && m.target < |replicas|)
      && (forall r :: r in broken ==> r < |replicas|)
    }
  }

  predicate WellFormedReplica(replica: Replica, commits: nat) {
    && replica.snapshot.policiesAt <= replica.snapshot.relationsAt < commits
    && (replica.worker.Loading? <==> replica.lock.Some? && replica.lock.value.loader.Worker?)
    && replica.served <= replica.asked
    && (replica.lock.Some? ==> WellFormedLoad(replica.lock.value, replica.snapshot, commits))
  }

  predicate WellFormedLoad(load: Load, current: Snapshot, commits: nat) {
    && (load.relationsAt.Some? ==> load.policiesAt.Some? && load.policiesAt.value <= load.relationsAt.value)
    && (load.policiesAt.Some? ==> current.policiesAt <= load.policiesAt.value < commits)
    && (load.relationsAt.Some? ==> current.relationsAt <= load.relationsAt.value < commits)
    && (load.loader.Request? ==>
          && load.loader.version < commits
          && (load.policiesAt.Some? ==> load.loader.version <= load.policiesAt.value)
          && (load.relationsAt.Some? ==> load.loader.version <= load.relationsAt.value))
  }

  /** Loads of requests and deferred loads publish; ticks and invalidations do not. */
  predicate Publishes(loader: Loader) {
    loader.Request? || loader.cause.Deferred?
  }

  /** What the handler of a mutating request does. */
  datatype RequestStep =
    | CommitChange(replica: nat, tables: Tables)
    | CommitGrant(replica: nat, tables: Tables)
    | Schedule(request: Committed)
    | BeginByRequest(request: Committed)
    | Publish(request: Committed)
    | FailPublish(request: Committed)

  /** What the holder of a replica's policy mutex does. */
  datatype LoadStep = BeginByWorker | ReadPolicies | ReadRelations | Install | FailLoad

  /** What the goroutine that processes invalidations does outside the mutex. */
  datatype WorkerStep =
    | TakeTick | TakeInvalidation | TakeDeferred | EndDebounce | WorkerPublish | WorkerFailPublish | Stop

  /** What the message bus does; Join is a new subscription by a replica that already loaded. */
  datatype BusStep = Deliver(message: Message) | Lose(message: Message) | Join(snapshot: Snapshot)

  datatype Step =
    | OfRequest(request: RequestStep)
    | OfLoad(replica: nat, load: LoadStep)
    | OfWorker(replica: nat, worker: WorkerStep)
    | OfBus(bus: BusStep)

  ghost predicate RequestEnabled(s: State, step: RequestStep)
  {
    match step
    case CommitChange(r, _) => r < |s.replicas|
    case CommitGrant(r, t) =>
      r < |s.replicas| && |s.log| > 0 && s.Database().policies <= t.policies && s.Database().relations <= t.relations
    case Schedule(c) => c.replica < |s.replicas| && c in s.scheduling
    case BeginByRequest(c) => c.replica < |s.replicas| && c in s.waiting && s.replicas[c.replica].lock.None?
    case Publish(c) => c in s.publishing
    case FailPublish(c) => c in s.publishing
  }

  ghost predicate LoadEnabled(replica: Replica, step: LoadStep) {
    match step
    case BeginByWorker => replica.worker.Waiting? && replica.lock.None?
    case ReadPolicies => replica.lock.Some? && replica.lock.value.policiesAt.None?
    case ReadRelations =>
      replica.lock.Some? && replica.lock.value.policiesAt.Some? && replica.lock.value.relationsAt.None?
    case Install => replica.lock.Some? && replica.lock.value.policiesAt.Some? && replica.lock.value.relationsAt.Some?
    case FailLoad => replica.lock.Some?
  }

  ghost predicate WorkerEnabled(replica: Replica, step: WorkerStep) {
    match step
    case TakeTick => replica.worker.Idle?
    case TakeInvalidation => replica.worker.Idle? && replica.invalidation
    case TakeDeferred => replica.worker.Idle? && replica.deferred
    case EndDebounce => replica.worker.Debouncing?
    case WorkerPublish => replica.worker.Publishing?
    case WorkerFailPublish => replica.worker.Publishing?
    case Stop => replica.worker.Idle?
  }

  ghost predicate BusEnabled(s: State, step: BusStep) {
    match step
    case Deliver(m) => m.target < |s.replicas| && m in s.bus
    case Lose(m) => m in s.bus
    case Join(snapshot) => snapshot.policiesAt <= snapshot.relationsAt < |s.log|
  }

  ghost predicate Enabled(s: State, step: Step)
  {
    match step
    case OfRequest(a) => RequestEnabled(s, a)
    case OfLoad(r, a) => r < |s.replicas| && LoadEnabled(s.replicas[r], a)
    case OfWorker(r, a) => r < |s.replicas| && WorkerEnabled(s.replicas[r], a)
    case OfBus(a) => BusEnabled(s, a)
  }

  function Everyone(s: State): set<nat> {
    UpTo(|s.replicas|)
  }

  function UpTo(n: nat): (rs: set<nat>)
    ensures forall r: nat :: r in rs <==> r < n
  {
    if n == 0 then {} else UpTo(n - 1) + {n - 1}
  }

  /** One message to every subscriber, the publisher included. */
  function Broadcast(origin: nat, serial: nat, version: nat, replicas: nat): (b: set<Message>)
    ensures forall m :: m in b <==> m.origin == origin && m.serial == serial && m.version == version && m.target < replicas
  {
    if replicas == 0 then {} else Broadcast(origin, serial, version, replicas - 1) + {Message(origin, replicas - 1, serial, version)}
  }

  /** The replica once a load by `loader` has taken its mutex. */
  function Begun(replica: Replica, loader: Loader): Replica {
    replica.(lock := Some(Load(loader, None, None)), served := replica.asked, heard := 0,
             worker := if loader.Worker? then Loading else replica.worker)
  }

  /** A load that begins now repairs the replica, unless nobody will tell it of later changes. */
  function Healed(s: State, r: nat): set<nat>
    requires r < |s.replicas|
  {
    if s.replicas[r].worker.Stopped? then s.broken else s.broken - {r}
  }

  ghost function RequestNext(s: State, step: RequestStep): State
    requires RequestEnabled(s, step)
  {
    match step
    case CommitChange(r, t) =>
      s.(log := s.log + [t], waiting := s.waiting + {Committed(r, |s.log|)})
    case CommitGrant(r, t) =>
      s.(log := s.log + [t], scheduling := s.scheduling + {Committed(r, |s.log|)})
    case Schedule(c) =>
      var replica := s.replicas[c.replica];
      s.(scheduling := s.scheduling - {c},
         replicas := s.replicas[c.replica := replica.(deferred := true, asked := replica.asked + 1)],
         broken := if replica.worker.Stopped? then Everyone(s) else s.broken)
    case BeginByRequest(c) =>
      s.(waiting := s.waiting - {c},
         replicas := s.replicas[c.replica := Begun(s.replicas[c.replica], Request(c.version))],
         broken := Healed(s, c.replica))
    case Publish(c) =>
      s.(publishing := s.publishing - {c}, bus := s.bus + Broadcast(c.replica, s.published, c.version, |s.replicas|),
         published := s.published + 1)
    case FailPublish(c) =>
      s.(publishing := s.publishing - {c}, broken := s.broken + (Everyone(s) - {c.replica}))
  }

  /** The lock holder's replica after its step; `now` is the log position a read sees. */
  ghost function Loaded(replica: Replica, step: LoadStep, now: nat): Replica
    requires LoadEnabled(replica, step)
  {
    match step
    case BeginByWorker => Begun(replica, Worker(replica.worker.cause))
    case ReadPolicies => replica.(lock := Some(replica.lock.value.(policiesAt := Some(now))))
    case ReadRelations => replica.(lock := Some(replica.lock.value.(relationsAt := Some(now))))
    case Install =>
      var load := replica.lock.value;
      replica.(lock := None, snapshot := Snapshot(load.policiesAt.value, load.relationsAt.value),
               worker := if load.loader.Request? then replica.worker
                         else if Publishes(load.loader) then Publishing else Idle)
    case FailLoad =>
      replica.(lock := None, worker := if replica.lock.value.loader.Worker? then Idle else replica.worker)
  }

  ghost function LoadNext(s: State, r: nat, step: LoadStep): State
    requires r < |s.replicas| && LoadEnabled(s.replicas[r], step)
  {
    var t := s.(replicas := s.replicas[r := Loaded(s.replicas[r], step, s.Latest())]);
    match step
    case BeginByWorker => t.(broken := Healed(s, r))
    case Install =>
      var loader := s.replicas[r].lock.value.loader;
      if loader.Request? then t.(publishing := s.publishing + {Committed(r, loader.version)}) else t
    case FailLoad =>
      t.(broken := if Publishes(s.replicas[r].lock.value.loader) then Everyone(s) else s.broken + {r})
    case _ => t
  }

  ghost function Worked(replica: Replica, step: WorkerStep): Replica
    requires WorkerEnabled(replica, step)
  {
    match step
    case TakeTick => replica.(worker := Waiting(Tick))
    case TakeInvalidation => replica.(worker := Waiting(Invalidation), invalidation := false)
    case TakeDeferred => replica.(worker := Debouncing, deferred := false)
    case EndDebounce => replica.(worker := Waiting(Deferred), deferred := false)
    case WorkerPublish => replica.(worker := Idle)
    case WorkerFailPublish => replica.(worker := Idle)
    case Stop => replica.(worker := Stopped)
  }

  ghost function WorkerNext(s: State, r: nat, step: WorkerStep): State
    requires r < |s.replicas| && WorkerEnabled(s.replicas[r], step)
  {
    var t := s.(replicas := s.replicas[r := Worked(s.replicas[r], step)]);
    match step
    case WorkerPublish => t.(bus := s.bus + Broadcast(r, s.published, 0, |s.replicas|), published := s.published + 1)
    case WorkerFailPublish => t.(broken := s.broken + (Everyone(s) - {r}))
    case Stop => t.(broken := if s.replicas[r].deferred then Everyone(s) else s.broken + {r})
    case _ => t
  }

  /** The replica once message `m` of another replica has arrived. */
  function Told(replica: Replica, m: Message): Replica {
    replica.(invalidation := true, heard := if replica.heard < m.version then m.version else replica.heard)
  }

  ghost function BusNext(s: State, step: BusStep): State
    requires BusEnabled(s, step)
  {
    match step
    case Deliver(m) =>
      s.(bus := s.bus - {m},
         replicas := if m.origin == m.target then s.replicas
                     else s.replicas[m.target := Told(s.replicas[m.target], m)])
    case Lose(m) =>
      s.(bus := s.bus - {m}, broken := s.broken + {m.target})
    case Join(snapshot) =>
      s.(replicas := s.replicas + [Replica(snapshot, None, Idle, false, false, 0, 0, 0)],
         broken := if snapshot == Snapshot(s.Latest(), s.Latest()) then s.broken else s.broken + {|s.replicas|})
  }

  ghost function Apply(s: State, step: Step): State
    requires Enabled(s, step)
  {
    match step
    case OfRequest(a) => RequestNext(s, a)
    case OfLoad(r, a) => LoadNext(s, r, a)
    case OfWorker(r, a) => WorkerNext(s, r, a)
    case OfBus(a) => BusNext(s, a)
  }

  /** `replicas` replicas that all loaded the first state of the database. */
  predicate Initial(s: State) {
    && |s.log| == 1
    && (forall r :: 0 <= r < |s.replicas| ==> s.replicas[r] == Replica(Snapshot(0, 0), None, Idle, false, false, 0, 0, 0))
    && s.scheduling == {} && s.waiting == {} && s.publishing == {} && s.bus == {} && s.published == 0
    && s.broken == {}
  }

  /** The steps, taken in order from s, are all enabled and end in t. */
  ghost predicate Runs(s: State, steps: seq<Step>, t: State)
    decreases |steps|
  {
    if steps == [] then t == s
    else Enabled(s, steps[0]) && Runs(Apply(s, steps[0]), steps[1..], t)
  }

  // ------------------------------------------------------------------ invariant

  /** Why a replica is going to load again, or is about to be told to. */
  datatype Reason =
    | Unscheduled
    | Unloaded(request: Committed)
    | Unpublished(request: Committed)
    | DeferredAt(replica: nat)
    | PublisherAt(replica: nat)
    | InFlight(message: Message)
    | Signalled

  ghost predicate Explains(s: State, r: nat, why: Reason)
    requires r < |s.replicas|
  {
    match why
    case Unscheduled => s.scheduling != {}
    case Unloaded(c) => c in s.waiting
    case Unpublished(c) => c in s.publishing && c.replica != r
    case DeferredAt(q) => q < |s.replicas| && WillReloadEveryone(s.replicas[q])
    case PublisherAt(q) => q < |s.replicas| && q != r && WillPublish(s.replicas[q])
    case InFlight(m) => m in s.bus && m.target == r && m.origin != r
    case Signalled => s.replicas[r].invalidation || s.replicas[r].worker == Waiting(Invalidation)
  }

  /** The newest synchronous request behind a reason, by its commit; 0 if only deferred reloads are. */
  ghost function Newest(s: State, r: nat, why: Reason): nat
    requires r < |s.replicas|
  {
    match why
    case Unscheduled => 0
    case Unloaded(c) => c.version
    case Unpublished(c) => c.version
    case DeferredAt(_) => 0
    case PublisherAt(q) => if q < |s.replicas| then LoadingFor(s.replicas[q]) else 0
    case InFlight(m) => m.version
    case Signalled => s.replicas[r].heard
  }

  /** The commit of the request that holds the replica's mutex, if one does. */
  function LoadingFor(replica: Replica): nat {
    if replica.lock.Some? && replica.lock.value.loader.Request? then replica.lock.value.loader.version else 0
  }

  /** Something is under way that makes replica r load after this moment. */
  ghost predicate Pending(s: State, r: nat)
    requires r < |s.replicas|
  {
    exists why :: Explains(s, r, why)
  }

  /** A deferred reload that has not begun its load. */
  predicate WillReloadEveryone(replica: Replica) {
    (replica.deferred && !replica.worker.Stopped?) || replica.worker.Debouncing? || replica.worker == Waiting(Deferred)
  }

  /** A load that publishes when it is done, or its publication. */
  predicate WillPublish(replica: Replica) {
    replica.worker.Publishing? || (replica.lock.Some? && Publishes(replica.lock.value.loader))
  }

  /** Nothing replica r has read, or will read without rereading, is older than `now`. */
  predicate UpToDate(replica: Replica, now: nat) {
    match replica.lock
    case None => replica.snapshot == Snapshot(now, now)
    case Some(load) =>
      && (load.policiesAt.Some? ==> load.policiesAt.value == now)
      && (load.relationsAt.Some? ==> load.relationsAt.value == now)
  }

  ghost predicate Follows(s: State, r: nat)
    requires r < |s.replicas|
  {
    r in s.broken || Pending(s, r) || UpToDate(s.replicas[r], s.Latest())
  }

  /**
   * The refresh of the synchronous request of commit v, or of a later one, has
   * not reached replica r yet: that request has not begun its load, or it is a
   * request of another replica whose invalidation r has not acted on.
   */
  ghost predicate RevocationPending(s: State, r: nat, v: nat)
    requires r < |s.replicas|
  {
    exists why :: Explains(s, r, why) && Newest(s, r, why) >= v
  }

  /** Commit v took policies away, or relations. */
  predicate DropsPolicies(log: seq<Tables>, v: nat) {
    0 < v < |log| && !(log[v - 1].policies <= log[v].policies)
  }

  predicate DropsRelations(log: seq<Tables>, v: nat) {
    0 < v < |log| && !(log[v - 1].relations <= log[v].relations)
  }

  predicate PoliciesReadBefore(replica: Replica, v: nat) {
    match replica.lock
    case None => replica.snapshot.policiesAt < v
    case Some(load) => load.policiesAt.Some? && load.policiesAt.value < v
  }

  predicate RelationsReadBefore(replica: Replica, v: nat) {
    match replica.lock
    case None => replica.snapshot.relationsAt < v
    case Some(load) => load.relationsAt.Some? && load.relationsAt.value < v
  }

  /** Commit v revoked something the replica has read, and will not reread in its present load. */
  predicate Misses(replica: Replica, log: seq<Tables>, v: nat) {
    || (DropsPolicies(log, v) && PoliciesReadBefore(replica, v))
    || (DropsRelations(log, v) && RelationsReadBefore(replica, v))
  }

  ghost predicate OverGrantExplained(s: State, r: nat)
    requires r < |s.replicas|
  {
    r in s.broken || forall v :: Misses(s.replicas[r], s.log, v) ==> RevocationPending(s, r, v)
  }

  /** A deferred reload that was asked for and not yet begun is still on its way. */
  predicate DeferredKept(replica: Replica) {
    replica.served < replica.asked ==> WillReloadEveryone(replica) || replica.worker.Stopped?
  }

  /** A request that has reloaded sees its own commit in its replica's snapshot. */
  ghost predicate SeesOwnCommit(s: State, c: Committed)
    requires c in s.publishing && c.replica < |s.replicas|
  {
    && c.version <= s.replicas[c.replica].snapshot.policiesAt
    && c.version <= s.replicas[c.replica].snapshot.relationsAt
  }

  ghost predicate Inv(s: State) {
    && s.WellFormed()
    && (forall r :: 0 <= r < |s.replicas| && s.replicas[r].worker.Stopped? ==> r in s.broken)
    && (forall r :: 0 <= r < |s.replicas| ==> Follows(s, r))
    && (forall r :: 0 <= r < |s.replicas| ==> OverGrantExplained(s, r))
    && (forall r :: 0 <= r < |s.replicas| ==> DeferredKept(s.replicas[r]))
    && (forall c :: c in s.publishing ==> SeesOwnCommit(s, c))
  }

  lemma InitialInv(s: State)
    requires Initial(s)
    ensures Inv(s)
  {
    forall r | 0 <= r < |s.replicas|
      ensures WellFormedReplica(s.replicas[r], 1) && s.replicas[r].snapshot == Snapshot(0, 0)
              && s.replicas[r].lock == None && s.replicas[r].asked == 0
    {
    }
  }

  // -------------------------------------------------- every step keeps the invariant

  lemma RequestWellFormed(s: State, step: RequestStep)
    requires s.WellFormed() && RequestEnabled(s, step)
    ensures RequestNext(s, step).WellFormed()
  {
  }

  lemma LoadWellFormed(s: State, r: nat, step: LoadStep)
    requires s.WellFormed() && r < |s.replicas| && LoadEnabled(s.replicas[r], step)
    ensures LoadNext(s, r, step).WellFormed()
  {
    assert WellFormedReplica(Loaded(s.replicas[r], step, s.Latest()), |s.log|);
  }

  lemma WorkerWellFormed(s: State, r: nat, step: WorkerStep)
    requires s.WellFormed() && r < |s.replicas| && WorkerEnabled(s.replicas[r], step)
    ensures WorkerNext(s, r, step).WellFormed()
  {
    assert WellFormedReplica(Worked(s.replicas[r], step), |s.log|);
  }

  lemma BusWellFormed(s: State, step: BusStep)
    requires s.WellFormed() && BusEnabled(s, step)
    ensures BusNext(s, step).WellFormed()
  {
  }

  /** The replica holds its mutex and has read nothing yet. */
  predicate AboutToRead(replica: Replica) {
    replica.lock.Some? && replica.lock.value.policiesAt.None? && replica.lock.value.relationsAt.None?
  }

  /** A reason that holds in s is replaced in t by `why'`, which is no older, unless r is about to read. */
  ghost predicate CarriedOver(s: State, t: State, r: nat, why: Reason, why': Reason)
    requires r < |s.replicas| <= |t.replicas|
  {
    || r in t.broken
    || AboutToRead(t.replicas[r])
    || (Explains(t, r, why') && Newest(s, r, why) <= Newest(t, r, why'))
  }

  lemma ScheduleCarriesOver(s: State, c: Committed, r: nat, why: Reason) returns (why': Reason)
    requires RequestEnabled(s, Schedule(c)) && r < |s.replicas| && Explains(s, r, why)
    ensures CarriedOver(s, RequestNext(s, Schedule(c)), r, why, why')
  {
    why' := if why.Unscheduled? then DeferredAt(c.replica) else why;
  }

  lemma BeginCarriesOver(s: State, c: Committed, r: nat, why: Reason) returns (why': Reason)
    requires RequestEnabled(s, BeginByRequest(c)) && r < |s.replicas| && Explains(s, r, why)
    ensures CarriedOver(s, RequestNext(s, BeginByRequest(c)), r, why, why')
  {
    why' := if why == Unloaded(c) then PublisherAt(c.replica) else why;
  }

  lemma RequestCarriesOver(s: State, step: RequestStep, r: nat, why: Reason) returns (why': Reason)
    requires RequestEnabled(s, step) && r < |s.replicas| && Explains(s, r, why)
    ensures CarriedOver(s, RequestNext(s, step), r, why, why')
  {
    match step
    case Schedule(c) => why' := ScheduleCarriesOver(s, c, r, why);
    case BeginByRequest(c) => why' := BeginCarriesOver(s, c, r, why);
    case Publish(c) => why' := if why == Unpublished(c) then InFlight(Message(c.replica, r, s.published, c.version)) else why;
    case _ => why' := why;
  }

  lemma LoadCarriesOver(s: State, p: nat, step: LoadStep, r: nat, why: Reason) returns (why': Reason)
    requires p < |s.replicas| && LoadEnabled(s.replicas[p], step) && WellFormedReplica(s.replicas[p], |s.log|)
    requires r < |s.replicas| && Explains(s, r, why)
    ensures CarriedOver(s, LoadNext(s, p, step), r, why, why')
  {
    why' := match (step, why)
      case (BeginByWorker, DeferredAt(q)) => if p == q && !s.replicas[q].deferred then PublisherAt(q) else why
      case (Install, PublisherAt(q)) =>
        var loader := s.replicas[p].lock.value.loader;
        if p == q && loader.Request? then Unpublished(Committed(q, loader.version)) else why
      case _ => why;
  }

  lemma WorkerCarriesOver(s: State, p: nat, step: WorkerStep, r: nat, why: Reason) returns (why': Reason)
    requires p < |s.replicas| && WorkerEnabled(s.replicas[p], step)
    requires r < |s.replicas| && Explains(s, r, why)
    ensures CarriedOver(s, WorkerNext(s, p, step), r, why, why')
  {
    why' := match (step, why)
      case (WorkerPublish, PublisherAt(q)) =>
        if p == q && LoadingFor(s.replicas[q]) == 0 then InFlight(Message(q, r, s.published, 0)) else why
      case _ => why;
  }

  lemma BusCarriesOver(s: State, step: BusStep, r: nat, why: Reason) returns (why': Reason)
    requires BusEnabled(s, step) && r < |s.replicas| && Explains(s, r, why)
    ensures CarriedOver(s, BusNext(s, step), r, why, why')
  {
    why' := match (step, why)
      case (Deliver(m), InFlight(n)) => if m == n then Signalled else why
      case _ => why;
  }

  lemma StepCarriesOver(s: State, step: Step, r: nat, why: Reason) returns (why': Reason)
    requires s.WellFormed() && Enabled(s, step)
    requires r < |s.replicas| && Explains(s, r, why)
    ensures CarriedOver(s, Apply(s, step), r, why, why')
  {
    match step
    case OfRequest(a) => why' := RequestCarriesOver(s, a, r, why);
    case OfLoad(p, a) => why' := LoadCarriesOver(s, p, a, r, why);
    case OfWorker(p, a) => why' := WorkerCarriesOver(s, p, a, r, why);
    case OfBus(a) => why' := BusCarriesOver(s, a, r, why);
  }

  lemma StepWellFormed(s: State, step: Step)
    requires s.WellFormed() && Enabled(s, step)
    ensures Apply(s, step).WellFormed()
    ensures |s.log| <= |Apply(s, step).log| && |s.replicas| <= |Apply(s, step).replicas|
  {
    match step
    case OfRequest(a) => RequestWellFormed(s, a);
    case OfLoad(r, a) => LoadWellFormed(s, r, a);
    case OfWorker(r, a) => WorkerWellFormed(s, r, a);
    case OfBus(a) => BusWellFormed(s, a);
  }

  lemma LoadKeeps(replica: Replica, step: LoadStep, log: seq<Tables>)
    requires |log| > 0 && LoadEnabled(replica, step)
    ensures !step.FailLoad? && UpToDate(replica, |log| - 1) ==> UpToDate(Loaded(replica, step, |log| - 1), |log| - 1)
  {
  }

  /** A replica that is up to date stays so, or gets a reason to load again. */
  lemma StepKeepsUpToDate(s: State, step: Step, r: nat)
    requires s.WellFormed() && Enabled(s, step)
    requires r < |s.replicas| && UpToDate(s.replicas[r], s.Latest())
    ensures Follows(Apply(s, step), r)
  {
    var t := Apply(s, step);
    match step
    case OfRequest(a) =>
      if a.CommitChange? {
        assert Explains(t, r, Unloaded(Committed(a.replica, |s.log|)));
      } else if a.CommitGrant? {
        assert Explains(t, r, Unscheduled);
      } else {
        assert UpToDate(t.replicas[r], s.Latest());
      }
    case OfLoad(p, a) => LoadKeeps(s.replicas[p], a, s.log);
    case OfWorker(p, a) => assert UpToDate(t.replicas[r], s.Latest());
    case OfBus(a) => assert UpToDate(t.replicas[r], s.Latest());
  }

  /** What a replica misses after a step it missed before, or this step's change has just revoked it. */
  lemma StepMisses(s: State, step: Step, r: nat, v: nat)
    requires s.WellFormed() && Enabled(s, step) && r < |s.replicas|
    requires r !in Apply(s, step).broken && Misses(Apply(s, step).replicas[r], Apply(s, step).log, v)
    ensures !AboutToRead(Apply(s, step).replicas[r])
    ensures || Misses(s.replicas[r], s.log, v)
            || (v == |s.log| && step.OfRequest? && step.request.CommitChange?)
  {
    var t := Apply(s, step);
    match step
    case OfRequest(a) =>
      if a.CommitChange? || a.CommitGrant? {
        assert t.replicas == s.replicas && t.log[..|s.log|] == s.log;
      }
    case OfLoad(p, a) =>
    case OfWorker(p, a) =>
    case OfBus(a) => assert t.replicas[r].lock == s.replicas[r].lock && t.replicas[r].snapshot == s.replicas[r].snapshot;
  }

  lemma ChangeExplains(s: State, a: RequestStep, r: nat)
    requires a.CommitChange? && RequestEnabled(s, a) && r < |s.replicas|
    ensures RevocationPending(RequestNext(s, a), r, |s.log|)
  {
    assert Explains(RequestNext(s, a), r, Unloaded(Committed(a.replica, |s.log|)));
  }

  /** Each revocation a replica misses has its synchronous request, or a later one, still under way towards it. */
  lemma StepExplainsOverGrants(s: State, step: Step, r: nat)
    requires s.WellFormed() && Enabled(s, step)
    requires r < |s.replicas| && OverGrantExplained(s, r) && (r in s.broken ==> r in Apply(s, step).broken || AboutToRead(Apply(s, step).replicas[r]))
    ensures OverGrantExplained(Apply(s, step), r)
  {
    hide State.WellFormed, Explains, Newest;
    var t := Apply(s, step);
    forall v | r !in t.broken && Misses(t.replicas[r], t.log, v)
      ensures RevocationPending(t, r, v)
    {
      StepMisses(s, step, r, v);
      if Misses(s.replicas[r], s.log, v) {
        var why :| Explains(s, r, why) && Newest(s, r, why) >= v;
        var why' := StepCarriesOver(s, step, r, why);
      } else {
        ChangeExplains(s, step.request, r);
      }
    }
  }

  lemma StepInv(s: State, step: Step)
    requires Inv(s) && Enabled(s, step)
    ensures Inv(Apply(s, step))
  {
    StepWellFormed(s, step);
    StepKeepsStoppedBroken(s, step);
    StepKeepsDeferred(s, step);
    StepKeepsOwnCommits(s, step);
    var t := Apply(s, step);
    forall r | 0 <= r < |t.replicas|
      ensures Follows(t, r) && OverGrantExplained(t, r)
    {
      if r == |s.replicas| {
        JoinFollows(s, step);
      } else {
        assert Follows(s, r) && OverGrantExplained(s, r);
        if why :| Explains(s, r, why) {
          var why' := StepCarriesOver(s, step, r, why);
        }
        if UpToDate(s.replicas[r], s.Latest()) { StepKeepsUpToDate(s, step, r); }
        if r in s.broken { StepKeepsBroken(s, step, r); }
        StepExplainsOverGrants(s, step, r);
      }
    }
  }

  lemma StepKeepsBroken(s: State, step: Step, r: nat)
    requires s.WellFormed() && Enabled(s, step) && r in s.broken
    ensures r in Apply(s, step).broken || AboutToRead(Apply(s, step).replicas[r])
  {
  }

  lemma JoinFollows(s: State, step: Step)
    requires s.WellFormed() && Enabled(s, step) && |Apply(s, step).replicas| == |s.replicas| + 1
    ensures Follows(Apply(s, step), |s.replicas|) && OverGrantExplained(Apply(s, step), |s.replicas|)
  {
    assert step.OfBus? && step.bus.Join?;
  }

  lemma StepKeepsStoppedBroken(s: State, step: Step)
    requires Inv(s) && Enabled(s, step)
    ensures var t := Apply(s, step);
            forall r :: 0 <= r < |t.replicas| && t.replicas[r].worker.Stopped? ==> r in t.broken
  {
  }

  lemma StepKeepsDeferred(s: State, step: Step)
    requires Inv(s) && Enabled(s, step)
    ensures var t := Apply(s, step); forall r :: 0 <= r < |t.replicas| ==> DeferredKept(t.replicas[r])
  {
  }

  lemma StepKeepsOwnCommits(s: State, step: Step)
    requires Inv(s) && Enabled(s, step) && Apply(s, step).WellFormed()
    ensures var t := Apply(s, step); forall c :: c in t.publishing ==> SeesOwnCommit(t, c)
  {
  }
}
