/**
 * Concurrent writes to one SCIM group.  Every writer locks the group's row, reads
 * the group, computes its change from what it read, and commits; the outcome is
 * that of running the committed requests one by one in lock order.
 */
module GroupLock {
  import opened Common
  import opened ScimTables
  import opened ScimPatch

  datatype Request = Put(group: GroupEdit) | Patch(ops: seq<Op>) | Delete | DropMember(member: Id)

  datatype Response = Written | Missing | Rejected | RolledBack

  /** What one request does to the group it finds. */
  function Effect(found: Option<GroupEdit>, r: Request): (Option<GroupEdit>, Response) {
    if found.None? then (None, Missing)
    else match r
      case Put(group) => (Some(group), Written)
      case Patch(ops) =>
        var edited := Fold(EditGroup, found, ops);
        if edited.None? then (found, Rejected) else (edited, Written)
      case Delete => (None, Written)
      case DropMember(member) => (Some(found.value.(members := found.value.members - {member})), Written)
  }

  datatype Phase = Waiting | Locked | HasRead(seen: Option<GroupEdit>) | Done(response: Response)

  /** `order` lists the requests in the order in which they committed. */
  datatype State = State(stored: Option<GroupEdit>, holder: Option<nat>, phases: seq<Phase>, order: seq<nat>)

  datatype Step = Lock(request: nat) | ReadGroup(request: nat) | Commit(request: nat) | Rollback(request: nat)

  predicate Enabled(s: State, step: Step) {
    && step.request < |s.phases|
    && match step
       case Lock(i) => s.holder.None? && s.phases[i].Waiting?
       case ReadGroup(i) => s.holder == Some(i) && s.phases[i].Locked?
       case Commit(i) => s.holder == Some(i) && s.phases[i].HasRead?
       case Rollback(i) => s.holder == Some(i)
  }

  function Apply(requests: seq<Request>, s: State, step: Step): State
    requires |requests| == |s.phases| && Enabled(s, step)
  {
    match step
    case Lock(i) => s.(holder := Some(i), phases := s.phases[i := Locked])
    case ReadGroup(i) => s.(phases := s.phases[i := HasRead(s.stored)])
    case Commit(i) =>
      var effect := Effect(s.phases[i].seen, requests[i]);
      s.(stored := effect.0, holder := None, phases := s.phases[i := Done(effect.1)], order := s.order + [i])
    case Rollback(i) => s.(holder := None, phases := s.phases[i := Done(RolledBack)])
  }

  ghost predicate Runs(requests: seq<Request>, s: State, steps: seq<Step>, t: State)
    decreases |steps|
  {
    if steps == [] then t == s
    else |requests| == |s.phases| && Enabled(s, steps[0]) && Runs(requests, Apply(requests, s, steps[0]), steps[1..], t)
  }

  predicate Initial(requests: seq<Request>, s: State) {
    s.holder.None? && s.order == [] && |s.phases| == |requests| && forall i :: 0 <= i < |s.phases| ==> s.phases[i].Waiting?
  }

  // -------------------------------------------------------------- running one by one

  predicate InRange(order: seq<nat>, requests: seq<Request>) {
    forall k :: 0 <= k < |order| ==> order[k] < |requests|
  }

  function OneByOne(start: Option<GroupEdit>, requests: seq<Request>, order: seq<nat>): Option<GroupEdit>
    requires InRange(order, requests)
    decreases |order|
  {
    if order == [] then start
    else Effect(OneByOne(start, requests, order[..|order| - 1]), requests[order[|order| - 1]]).0
  }

  /** The answer the k-th request gets when they run one by one. */
  function AnswerTo(start: Option<GroupEdit>, requests: seq<Request>, order: seq<nat>, k: nat): Response
    requires InRange(order, requests) && k < |order|
  {
    Effect(OneByOne(start, requests, order[..k]), requests[order[k]]).1
  }

  /** The stored group and all answers are those of the committed requests, one by one. */
  ghost predicate Linearised(start: Option<GroupEdit>, requests: seq<Request>, s: State) {
    && |s.phases| == |requests| && InRange(s.order, requests)
    && s.stored == OneByOne(start, requests, s.order)
    && (forall i :: 0 <= i < |s.phases| && s.phases[i].HasRead? ==> s.holder == Some(i) && s.phases[i].seen == s.stored)
    && (forall i :: 0 <= i < |s.phases| && s.phases[i].Locked? ==> s.holder == Some(i))
    && (forall k :: 0 <= k < |s.order| ==> s.phases[s.order[k]] == Done(AnswerTo(start, requests, s.order, k)))
    && (forall i :: 0 <= i < |s.phases| && s.phases[i].Done? && s.phases[i].response != RolledBack ==> i in s.order)
    && (forall k, l :: 0 <= k < l < |s.order| ==> s.order[k] != s.order[l])
  }

  lemma EffectIsNoRollback(found: Option<GroupEdit>, r: Request)
    ensures Effect(found, r).1 != RolledBack
  {
  }

  lemma EarlierAnswersStay(start: Option<GroupEdit>, requests: seq<Request>, order: seq<nat>, i: nat)
    requires InRange(order, requests) && i < |requests|
    ensures var order' := order + [i];
      && InRange(order', requests)
      && OneByOne(start, requests, order') == Effect(OneByOne(start, requests, order), requests[i]).0
      && AnswerTo(start, requests, order', |order|) == Effect(OneByOne(start, requests, order), requests[i]).1
      && forall k :: 0 <= k < |order| ==> AnswerTo(start, requests, order', k) == AnswerTo(start, requests, order, k)
  {
    hide Effect;
    var order' := order + [i];
    assert order'[..|order|] == order;
    forall k | 0 <= k < |order| ensures AnswerTo(start, requests, order', k) == AnswerTo(start, requests, order, k) {
      assert order'[..k] == order[..k];
    }
  }

  lemma CommitLinearised(start: Option<GroupEdit>, requests: seq<Request>, s: State, i: nat)
    requires Linearised(start, requests, s) && Enabled(s, Commit(i))
    ensures Linearised(start, requests, Apply(requests, s, Commit(i)))
  {
    hide Effect, OneByOne, AnswerTo;
    var t := Apply(requests, s, Commit(i));
    EffectIsNoRollback(s.phases[i].seen, requests[i]);
    EarlierAnswersStay(start, requests, s.order, i);
    assert i !in s.order;
    forall k | 0 <= k < |t.order| ensures t.phases[t.order[k]] == Done(AnswerTo(start, requests, t.order, k)) {
      if k < |s.order| {
        assert t.order[k] == s.order[k] && s.order[k] in s.order;
      }
    }
    assert forall j :: 0 <= j < |s.phases| && j != i ==> t.phases[j] == s.phases[j];
    assert i in t.order && forall j :: j in s.order ==> j in t.order;
  }

  lemma QuietStepLinearised(start: Option<GroupEdit>, requests: seq<Request>, s: State, step: Step)
    requires Linearised(start, requests, s) && HolderBusy(s) && Enabled(s, step) && !step.Commit?
    ensures Linearised(start, requests, Apply(requests, s, step)) && HolderBusy(Apply(requests, s, step))
  {
    hide Effect, OneByOne, AnswerTo;
    var i, t := step.request, Apply(requests, s, step);
    assert i !in s.order;
    assert forall j :: 0 <= j < |s.phases| && j != i ==> t.phases[j] == s.phases[j];
  }

  lemma StepLinearised(start: Option<GroupEdit>, requests: seq<Request>, s: State, step: Step)
    requires Linearised(start, requests, s) && HolderBusy(s) && Enabled(s, step)
    ensures Linearised(start, requests, Apply(requests, s, step)) && HolderBusy(Apply(requests, s, step))
  {
    if step.Commit? {
      hide Linearised;
      CommitLinearised(start, requests, s, step.request);
    } else {
      QuietStepLinearised(start, requests, s, step);
    }
  }

  /** A request that holds the lock is under way. */
  predicate HolderBusy(s: State) {
    s.holder.Some? ==> s.holder.value < |s.phases| && (s.phases[s.holder.value].Locked? || s.phases[s.holder.value].HasRead?)
  }

  lemma {:induction false} RunsLinearised(start: Option<GroupEdit>, requests: seq<Request>, s: State, steps: seq<Step>, t: State)
    requires Linearised(start, requests, s) && HolderBusy(s) && Runs(requests, s, steps, t)
    ensures Linearised(start, requests, t)
    decreases |steps|
  {
    hide Linearised, Effect;
    if steps != [] {
      StepLinearised(start, requests, s, steps[0]);
      RunsLinearised(start, requests, Apply(requests, s, steps[0]), steps[1..], t);
    }
  }

  /** For every interleaving: the group, and every answer, as if run one by one in lock order. */
  lemma ConcurrentWritesLinearise(start: State, requests: seq<Request>, steps: seq<Step>, t: State)
    requires Initial(requests, start) && Runs(requests, start, steps, t)
    ensures InRange(t.order, requests) && t.stored == OneByOne(start.stored, requests, t.order)
    ensures |t.phases| == |requests|
    ensures forall k :: 0 <= k < |t.order| ==> t.phases[t.order[k]] == Done(AnswerTo(start.stored, requests, t.order, k))
    ensures forall i :: 0 <= i < |requests| && t.phases[i].Done? && t.phases[i].response != RolledBack ==> i in t.order
  {
    RunsLinearised(start.stored, requests, start, steps, t);
  }

  /** A request that leaves it to the others whether this one is a member. */
  predicate HasNoSay(r: Request, member: Id) {
    match r
    case Patch(ops) => forall op :: op in ops ==> !Decides(op, member) && (op.removeAll ==> op.kind == Remove)
    case DropMember(other) => other != member
    case _ => false
  }

  lemma NoSayKeepsMember(found: Option<GroupEdit>, r: Request, member: Id)
    requires HasNoSay(r, member) && found.Some?
    ensures var after := Effect(found, r).0; after.Some? && (member in after.value.members <==> member in found.value.members)
  {
    if r.Patch? && Fold(EditGroup, found, r.ops).Some? {
      LastOperationDecides(found.value, r.ops, member);
    }
  }

  /**
   * No member change is lost: what the first n committed requests made of a
   * member stands as long as no later request has a say on that member.
   */
  lemma {:induction false} NoChangeIsLost(start: Option<GroupEdit>, requests: seq<Request>, order: seq<nat>, n: nat, member: Id)
    requires InRange(order, requests) && n <= |order|
    requires forall k :: n <= k < |order| ==> HasNoSay(requests[order[k]], member)
    ensures var before, after := OneByOne(start, requests, order[..n]), OneByOne(start, requests, order);
      before.Some? ==> after.Some? && (member in after.value.members <==> member in before.value.members)
    decreases |order|
  {
    hide Effect, HasNoSay;
    if n == |order| {
      assert order[..n] == order;
    } else {
      var init := order[..|order| - 1];
      assert init[..n] == order[..n];
      NoChangeIsLost(start, requests, init, n, member);
      if OneByOne(start, requests, init).Some? {
        NoSayKeepsMember(OneByOne(start, requests, init), requests[order[|order| - 1]], member);
      }
    }
  }

  /**
   * In every interleaving: the last operation of a written PATCH with a say on a
   * member decides it for good, unless a request committed later has a say too.
   */
  lemma LastSayStands(start: State, requests: seq<Request>, steps: seq<Step>, t: State, k: nat, member: Id, l: nat)
    requires Initial(requests, start) && Runs(requests, start, steps, t)
    requires k < |t.order| && InRange(t.order, requests) && requests[t.order[k]].Patch? && |t.phases| == |requests|
    requires t.phases[t.order[k]] == Done(Written)
    requires var ops := requests[t.order[k]].ops; LastSay(ops, member, l) && forall op :: op in ops ==> (op.removeAll ==> op.kind == Remove)
    requires forall j :: k < j < |t.order| ==> HasNoSay(requests[t.order[j]], member)
    ensures t.stored.Some? && (member in t.stored.value.members <==> DecidesIn(requests[t.order[k]].ops[l], member))
  {
    hide HasNoSay, LastSay, Runs;
    var ops := requests[t.order[k]].ops;
    ConcurrentWritesLinearise(start, requests, steps, t);
    var found := OneByOne(start.stored, requests, t.order[..k]);
    assert t.order[..k + 1][..k] == t.order[..k];
    assert AnswerTo(start.stored, requests, t.order, k) == Written;
    LastOperationDecides(found.value, ops, member);
    NoChangeIsLost(start.stored, requests, t.order, k + 1, member);
  }

  // ------------------------------------------------------ what each request leaves

  /** The stored group before the last committed request, if there was one. */
  function Before(start: Option<GroupEdit>, requests: seq<Request>, order: seq<nat>): Option<GroupEdit>
    requires InRange(order, requests) && order != []
  {
    OneByOne(start, requests, order[..|order| - 1])
  }

  /**
   * In every interleaving the last committed request has what it asked for: a
   * replacement is stored as sent, a deleted group is gone, a deleted user is no
   * member, and a request that found no group, or was refused, changed nothing.
   */
  lemma LastRequestStands(start: State, requests: seq<Request>, steps: seq<Step>, t: State)
    requires Initial(requests, start) && Runs(requests, start, steps, t) && t.order != []
    ensures InRange(t.order, requests) && |t.phases| == |requests|
    ensures var i := t.order[|t.order| - 1]; var before := Before(start.stored, requests, t.order);
      && (t.phases[i] == Done(Missing) <==> before.None?)
      && (before.None? ==> t.stored.None?)
      && (before.Some? ==> match requests[i]
           case Put(group) => t.phases[i] == Done(Written) && t.stored == Some(group)
           case Delete => t.phases[i] == Done(Written) && t.stored == None
           case DropMember(m) =>
             && t.phases[i] == Done(Written) && t.stored.Some? && t.stored.value.name == before.value.name
             && t.stored.value.externalId == before.value.externalId
             && forall k :: k in t.stored.value.members <==> k in before.value.members && k != m
           case Patch(ops) =>
             if t.phases[i] == Done(Rejected) then t.stored == before
             else t.phases[i] == Done(Written) && t.stored.Some? && t.stored == Fold(EditGroup, before, ops))
  {
    hide Runs;
    ConcurrentWritesLinearise(start, requests, steps, t);
    var k := |t.order| - 1;
    assert t.phases[t.order[k]] == Done(AnswerTo(start.stored, requests, t.order, k));
  }

  /** A deleted group stays deleted: no request creates it anew. */
  lemma {:induction false} DeletedStays(start: Option<GroupEdit>, requests: seq<Request>, order: seq<nat>, n: nat)
    requires InRange(order, requests) && n <= |order| && OneByOne(start, requests, order[..n]).None?
    ensures OneByOne(start, requests, order).None?
    ensures forall k :: n <= k < |order| ==> AnswerTo(start, requests, order, k) == Missing
    decreases |order|
  {
    if n == |order| {
      assert order[..n] == order;
    } else {
      var init := order[..|order| - 1];
      assert init[..n] == order[..n];
      DeletedStays(start, requests, init, n);
      forall k | n <= k < |order| ensures AnswerTo(start, requests, order, k) == Missing {
        if k < |init| {
          assert init[..k] == order[..k] && AnswerTo(start, requests, init, k) == Missing;
        }
      }
    }
  }
}
