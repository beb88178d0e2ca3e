/**
 * The cache in front of token lookups, against the database over whole runs:
 * tokens come and go, the clock advances, entries are evicted, requests arrive.
 */
module TokenCache {
  import opened Common

  datatype Kind = Session | ServiceUser | Workload

  type Hash = nat

  /** What authentication needs to know about a token. */
  datatype Token = Token(user: nat, expiresAt: nat, workloadBound: bool, holdsRoles: bool)

  /** The kind is part of the key, so kinds never answer for each other. */
  datatype Key = Key(kind: Kind, hash: Hash)

  /** No token is a negative entry. */
  datatype Entry = Entry(token: Option<Token>, until: nat)

  type Rows = map<Key, Token>

  type Cache = map<Key, Entry>

  // ---------------------------------------------------------------- the cache itself

  predicate Fresh(cache: Cache, key: Key, now: nat) {
    key in cache && now <= cache[key].until
  }

  function Find(rows: Rows, key: Key): Option<Token> {
    if key in rows then Some(rows[key]) else None
  }

  predicate Expired(token: Token, now: nat) {
    now > token.expiresAt
  }

  /** One lookup: its answer and the cache it leaves. */
  function Lookup(rows: Rows, cache: Cache, ttl: nat, now: nat, key: Key): (Option<Token>, Cache) {
    if Fresh(cache, key, now) && cache[key].token.None? then
      (None, cache[key := Entry(None, now + ttl)])
    else if key.kind != ServiceUser then
      var found := Find(rows, key);
      (found, if found.None? || Expired(found.value, now) then cache[key := Entry(None, now + ttl)] else cache)
    else if Fresh(cache, key, now) then
      (cache[key].token, cache)
    else
      (Find(rows, key), cache[key := Entry(Find(rows, key), now + ttl)])
  }

  /** Unexpired, and no static token of a workload-bound service user that holds roles or may not use one. */
  predicate Accepts(kind: Kind, token: Option<Token>, now: nat, staticTokens: bool) {
    && token.Some? && !Expired(token.value, now)
    && !(kind == ServiceUser && token.value.workloadBound && (token.value.holdsRoles || !staticTokens))
  }

  class GetTokenByHashCache {
    const ttl: nat
    var entries: Cache
    var lookups: nat
    var misses: nat

    constructor (ttl: nat)
      ensures this.ttl == ttl && entries == map[] && lookups == 0 && misses == 0
    {
      this.ttl, entries, lookups, misses := ttl, map[], 0, 0;
    }

    /** Positive answers for sessions and workloads always come from the database. */
    method GetTokenByHash(rows: Rows, now: nat, kind: Kind, hash: Hash) returns (token: Option<Token>)
      modifies this
      ensures (token, entries) == Lookup(rows, old(entries), ttl, now, Key(kind, hash))
      ensures lookups == old(lookups) + 1 && old(misses) <= misses <= old(misses) + 1
      ensures misses == old(misses) ==> Fresh(old(entries), Key(kind, hash), now) && token == old(entries)[Key(kind, hash)].token
    {
      lookups := lookups + 1;
      var key := Key(kind, hash);
      var hit := key in entries && now <= entries[key].until;
      if kind != ServiceUser {
        if hit && entries[key].token.None? {
          entries := entries[key := Entry(None, now + ttl)];
          return None;
        }
        misses := misses + 1;
        token := Find(rows, key);
        if token.None? || now > token.value.expiresAt {
          entries := entries[key := Entry(None, now + ttl)];
        }
        return;
      }
      if hit {
        token := entries[key].token;
      } else {
        misses := misses + 1;
        token := Find(rows, key);
        entries := entries[key := Entry(token, now + ttl)];
      }
      if token.None? {
        entries := entries[key := Entry(None, now + ttl)];
        assert entries == old(entries)[key := Entry(None, now + ttl)];
      }
    }

    /** A request with a token: looked up, then checked for its end and for a bound service user's static token. */
    method InternalAuthenticate(rows: Rows, now: nat, kind: Kind, hash: Hash, staticTokens: bool) returns (accepted: bool)
      modifies this
      ensures accepted <==> Accepts(kind, Lookup(rows, old(entries), ttl, now, Key(kind, hash)).0, now, staticTokens)
      ensures entries == Lookup(rows, old(entries), ttl, now, Key(kind, hash)).1
    {
      hide Lookup;
      var token := GetTokenByHash(rows, now, kind, hash);
      if token.None? {
        return false;
      }
      if now > token.value.expiresAt {
        return false;
      }
      if kind == ServiceUser && token.value.workloadBound && (token.value.holdsRoles || !staticTokens) {
        return false;
      }
      accepted := true;
    }
  }

  // ------------------------------------------------------------------ runs of a system

  /** `presented` are the tokens anyone ever tried; `read` the service-user rows that were read, and when. */
  datatype State = State(rows: Rows, cache: Cache, ttl: nat, now: nat, presented: set<Key>, read: set<(nat, Hash, Token)>)

  datatype Step =
    | Issue(key: Key, token: Token)
    | Change(hash: Hash, token: Token)
    | Rotate(from: Hash, to: Hash, token: Token)
    | Revoke(key: Key)
    | Tick(time: nat)
    | Evict(keys: set<Key>)
    | Present(key: Key)

  /**
   * New tokens are random: nobody has presented them before they were issued.  The rows of service
   * users change: they are expired early, bound to a workload, given roles, or get a new token.
   */
  predicate Enabled(s: State, step: Step) {
    match step
    case Issue(key, _) => key !in s.presented && key !in s.rows
    case Change(hash, _) => Key(ServiceUser, hash) in s.rows
    case Rotate(from, to, _) => Key(ServiceUser, from) in s.rows && Key(ServiceUser, to) !in s.presented && Key(ServiceUser, to) !in s.rows
    case Tick(time) => time >= s.now
    case _ => true
  }

  function Apply(s: State, step: Step): State {
    match step
    case Issue(key, token) => s.(rows := s.rows[key := token])
    case Change(hash, token) => s.(rows := s.rows[Key(ServiceUser, hash) := token])
    case Rotate(from, to, token) => s.(rows := (s.rows - {Key(ServiceUser, from)})[Key(ServiceUser, to) := token])
    case Revoke(key) => s.(rows := s.rows - {key})
    case Tick(time) => s.(now := time)
    case Evict(keys) => s.(cache := s.cache - keys)
    case Present(key) =>
      s.(cache := Lookup(s.rows, s.cache, s.ttl, s.now, key).1,
         presented := s.presented + {key},
         read := if key.kind == ServiceUser && key in s.rows then s.read + {(s.now, key.hash, s.rows[key])} else s.read)
  }

  ghost predicate Runs(s: State, steps: seq<Step>, t: State)
    decreases |steps|
  {
    if steps == [] then t == s else Enabled(s, steps[0]) && Runs(Apply(s, steps[0]), steps[1..], t)
  }

  predicate Initial(s: State) {
    s.cache == map[] && s.presented == {} && s.read == {}
  }

  function Answer(s: State, key: Key): Option<Token> {
    Lookup(s.rows, s.cache, s.ttl, s.now, key).0
  }

  // --------------------------------------------------------------------- invariant

  /** A negative entry's token was tried before, and is not valid now. */
  predicate NegativeIsTrue(s: State, key: Key) {
    key in s.cache && s.cache[key].token.None? ==>
      key in s.presented && (key.kind != ServiceUser && key in s.rows ==> Expired(s.rows[key], s.now))
  }

  /** Only service-user tokens are cached, as they were read when the entry was made. */
  predicate PositiveWasRead(s: State, key: Key) {
    key in s.cache && s.cache[key].token.Some? ==>
      && key.kind == ServiceUser && s.cache[key].until >= s.ttl && s.cache[key].until - s.ttl <= s.now
      && (s.cache[key].until - s.ttl, key.hash, s.cache[key].token.value) in s.read
  }

  /** A negative service-user entry hides nothing either: its hash was tried and no row had it then. */
  predicate NegativeServiceUser(s: State, key: Key) {
    key in s.cache && s.cache[key].token.None? && key.kind == ServiceUser ==> key in s.presented && key !in s.rows
  }

  predicate Inv(s: State) {
    && (forall key :: key in s.cache ==> NegativeIsTrue(s, key) && PositiveWasRead(s, key) && NegativeServiceUser(s, key))
  }

  lemma StepInv(s: State, step: Step)
    requires Inv(s) && Enabled(s, step)
    ensures Inv(Apply(s, step))
  {
    var t := Apply(s, step);
    forall key | key in t.cache ensures NegativeIsTrue(t, key) && PositiveWasRead(t, key) && NegativeServiceUser(t, key) {
      if key in s.cache {
        assert NegativeIsTrue(s, key) && PositiveWasRead(s, key) && NegativeServiceUser(s, key);
      }
    }
  }

  lemma {:induction false} RunsInv(s: State, steps: seq<Step>, t: State)
    requires Inv(s) && Runs(s, steps, t)
    ensures Inv(t)
    decreases |steps|
  {
    hide Inv, Apply;
    if steps != [] {
      StepInv(s, steps[0]);
      RunsInv(Apply(s, steps[0]), steps[1..], t);
    }
  }

  ghost predicate Reachable(s: State) {
    exists start, steps :: Initial(start) && Runs(start, steps, s)
  }

  lemma ReachableInv(s: State)
    requires Reachable(s)
    ensures Inv(s)
  {
    var start, steps :| Initial(start) && Runs(start, steps, s);
    RunsInv(start, steps, s);
  }

  // ---------------------------------------------------------------------- guarantees

  /** A session or workload token is accepted exactly while its row is in the database and unexpired. */
  lemma AcceptedIffStored(s: State, key: Key, staticTokens: bool)
    requires Reachable(s) && key.kind != ServiceUser
    ensures Accepts(key.kind, Answer(s, key), s.now, staticTokens) <==> key in s.rows && s.now <= s.rows[key].expiresAt
  {
    ReachableInv(s);
    if key in s.cache {
      assert NegativeIsTrue(s, key) && PositiveWasRead(s, key);
    }
  }

  /** A service-user token that is found was there, as answered, at some moment within the last TTL. */
  lemma FoundWasRecent(s: State, key: Key) returns (at: nat)
    requires Reachable(s) && key.kind == ServiceUser && Answer(s, key).Some?
    ensures at <= s.now <= at + s.ttl && (at, key.hash, Answer(s, key).value) in Apply(s, Present(key)).read
  {
    ReachableInv(s);
    at := s.now;
    if Fresh(s.cache, key, s.now) {
      assert PositiveWasRead(s, key);
      at := s.cache[key].until - s.ttl;
    }
  }

  /** A service-user token is accepted only if its row was there, as accepted, at some moment within the last TTL. */
  lemma AcceptedWasRecent(s: State, key: Key, staticTokens: bool) returns (at: nat)
    requires Reachable(s) && key.kind == ServiceUser && Accepts(key.kind, Answer(s, key), s.now, staticTokens)
    ensures at <= s.now <= at + s.ttl && (at, key.hash, Answer(s, key).value) in Apply(s, Present(key)).read
    ensures s.now <= Answer(s, key).value.expiresAt
    ensures Answer(s, key).value.workloadBound ==> staticTokens && !Answer(s, key).value.holdsRoles
  {
    at := FoundWasRecent(s, key);
  }

  /** What counts as read was in the database at that moment: the run was in such a state. */
  lemma {:induction false} ReadsAreTrue(s: State, steps: seq<Step>, t: State, at: nat, hash: Hash, token: Token) returns (k: nat, m: State)
    requires Runs(s, steps, t) && (at, hash, token) in t.read && (at, hash, token) !in s.read
    ensures k <= |steps| && Runs(s, steps[..k], m)
    ensures m.now == at && Find(m.rows, Key(ServiceUser, hash)) == Some(token)
    decreases |steps|
  {
    hide Lookup;
    var next := Apply(s, steps[0]);
    if (at, hash, token) in next.read {
      k, m := 0, s;
    } else {
      k, m := ReadsAreTrue(next, steps[1..], t, at, hash, token);
      assert steps[..k + 1][0] == steps[0] && steps[..k + 1][1..] == steps[1..][..k];
      k := k + 1;
    }
  }

  /** The states of a run whose answers may still be in the cache at its end. */
  ghost predicate StillCounts(start: State, steps: seq<Step>, s: State, k: nat, m: State) {
    k <= |steps| && Runs(start, steps[..k], m) && m.now <= s.now <= m.now + s.ttl
  }

  /** So what is answered for a service-user token was in the database in some state of the run within the last TTL. */
  lemma FoundWasStored(start: State, steps: seq<Step>, s: State, key: Key) returns (k: nat, m: State)
    requires Initial(start) && Runs(start, steps, s) && key.kind == ServiceUser && Answer(s, key).Some?
    ensures StillCounts(start, steps, s, k, m) && Find(m.rows, key) == Answer(s, key)
  {
    hide Lookup, Runs;
    assert Reachable(s);
    var at := FoundWasRecent(s, key);
    if (at, key.hash, Answer(s, key).value) in s.read {
      k, m := ReadsAreTrue(start, steps, s, at, key.hash, Answer(s, key).value);
    } else {
      k, m := |steps|, s;
      assert steps[..k] == steps;
    }
  }

  /** In particular an accepted one was. */
  lemma AcceptedWasStored(start: State, steps: seq<Step>, s: State, key: Key, staticTokens: bool) returns (k: nat, m: State)
    requires Initial(start) && Runs(start, steps, s)
    requires key.kind == ServiceUser && Accepts(key.kind, Answer(s, key), s.now, staticTokens)
    ensures StillCounts(start, steps, s, k, m) && Find(m.rows, key) == Answer(s, key)
    ensures key in m.rows && s.now <= m.rows[key].expiresAt && (m.rows[key].workloadBound ==> staticTokens && !m.rows[key].holdsRoles)
  {
    k, m := FoundWasStored(start, steps, s, key);
  }

  /** A service-user token is accepted exactly if it is found, not past its end, and no static token of a bound user that may not use one. */
  lemma AcceptedIffUsable(s: State, key: Key, staticTokens: bool)
    requires Reachable(s) && key.kind == ServiceUser
    ensures Accepts(key.kind, Answer(s, key), s.now, staticTokens) <==>
      && Answer(s, key).Some? && s.now <= Answer(s, key).value.expiresAt
      && (!Answer(s, key).value.workloadBound || (staticTokens && !Answer(s, key).value.holdsRoles))
  {
  }

  /** A token whose every row of the last TTL is of a bound user that holds roles, or may not use static tokens, is refused. */
  lemma BoundTokensAreRefused(start: State, steps: seq<Step>, s: State, key: Key, staticTokens: bool)
    requires Initial(start) && Runs(start, steps, s) && key.kind == ServiceUser
    requires forall k, m :: StillCounts(start, steps, s, k, m) && key in m.rows ==>
      m.rows[key].workloadBound && (m.rows[key].holdsRoles || !staticTokens)
    ensures !Accepts(key.kind, Answer(s, key), s.now, staticTokens)
  {
    hide Lookup, Runs, Accepts, StillCounts;
    if Accepts(key.kind, Answer(s, key), s.now, staticTokens) {
      var k, m := AcceptedWasStored(start, steps, s, key, staticTokens);
    }
  }

  /** One whose row was left alone for that long is accepted exactly as the row says. */
  lemma SettledTokensAreJudgedByTheirRow(start: State, steps: seq<Step>, s: State, key: Key, staticTokens: bool, token: Token)
    requires Initial(start) && Runs(start, steps, s) && key.kind == ServiceUser
    requires forall k, m :: StillCounts(start, steps, s, k, m) ==> Find(m.rows, key) == Some(token)
    ensures Accepts(key.kind, Answer(s, key), s.now, staticTokens) <==>
      s.now <= token.expiresAt && (!token.workloadBound || (staticTokens && !token.holdsRoles))
  {
    hide Lookup, Runs;
    assert Reachable(s) && steps[..|steps|] == steps;
    assert StillCounts(start, steps, s, |steps|, s);
    ValidServiceUserIsFound(s, key);
    var k, m := FoundWasStored(start, steps, s, key);
  }

  /** A service-user answer read from the database serves for the TTL, whatever the rows become, and a positive one no longer. */
  lemma AnswersAreKept(rows: Rows, cache: Cache, ttl: nat, now: nat, key: Key, rows': Rows, later: nat)
    requires key.kind == ServiceUser && key !in cache && now <= later
    ensures var first := Lookup(rows, cache, ttl, now, key);
      && first.0 == (if key in rows then Some(rows[key]) else None)
      && (later <= now + ttl ==> Lookup(rows', first.1, ttl, later, key).0 == first.0)
      && (later > now + ttl ==> Lookup(rows', first.1, ttl, later, key).0 == (if key in rows' then Some(rows'[key]) else None))
  {
  }

  /** A valid service-user token is never hidden by a negative entry. */
  lemma ValidServiceUserIsFound(s: State, key: Key)
    requires Reachable(s) && key.kind == ServiceUser && key in s.rows
    ensures Answer(s, key).Some?
  {
    ReachableInv(s);
    if key in s.cache {
      assert NegativeServiceUser(s, key) && PositiveWasRead(s, key);
    }
  }

  /** A token of one kind tells nothing about the same secret presented as another kind. */
  lemma KindsAreSeparate(rows: Rows, cache: Cache, ttl: nat, now: nat, key: Key, other: Key)
    requires key.kind != other.kind
    ensures var after := Lookup(rows, cache, ttl, now, other).1;
      Lookup(rows, after, ttl, now, key).0 == Lookup(rows, cache, ttl, now, key).0
    ensures Lookup(rows - {other}, cache, ttl, now, key).0 == Lookup(rows, cache, ttl, now, key).0
  {
  }
}
