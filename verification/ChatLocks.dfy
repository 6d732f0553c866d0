/**
 * Token-guarded thread locks with a time to live: the repository cell (minimal-persistence.ts) and the adapter
 * that chooses tokens and expiry times (core/chat.ts).
 */
module ChatLocks {
  import opened Basics

  /** A stored lock; an expiry that does not parse as a date is absent and never passes. */
  datatype LockRecord = LockRecord(token: string, expiresAt: Option<int>)

  type Locks = map<string, LockRecord>

  predicate Expired(r: LockRecord, now: int)
  {
    r.expiresAt.Some? && r.expiresAt.value <= now
  }

  predicate Free(locks: Locks, threadId: string, now: int)
  {
    threadId !in locks || Expired(locks[threadId], now)
  }

  // ----- The three repository calls, as functions on the cell -----

  function AcquireIn(locks: Locks, threadId: string, record: LockRecord, now: int): (bool, Locks)
  {
    if Free(locks, threadId, now) then (true, locks[threadId := record]) else (false, locks)
  }

  function ExtendIn(locks: Locks, threadId: string, token: string, expiresAt: Option<int>, now: int): (bool, Locks)
  {
    if threadId in locks && Expired(locks[threadId], now) then (false, locks - {threadId})
    else if threadId !in locks || locks[threadId].token != token then (false, locks)
    else (true, locks[threadId := LockRecord(token, expiresAt)])
  }

  function ReleaseIn(locks: Locks, threadId: string, token: string): Locks
  {
    if threadId in locks && locks[threadId].token == token then locks - {threadId} else locks
  }

  const THREAD_LOCK_TTL_FLOOR_MS := 1

  function ToExpiresAt(now: int, ttlMs: Option<int>): Option<int>
  {
    if ttlMs.None? then None
    else Some(now + if ttlMs.value < THREAD_LOCK_TTL_FLOOR_MS then THREAD_LOCK_TTL_FLOOR_MS else ttlMs.value)
  }

  /** The expiry the adapter asks for on acquisition: without a time to live the lock expires at once. */
  function AcquireExpiry(at: int, ttlMs: Option<int>): int
  {
    if ToExpiresAt(at, ttlMs).Some? then ToExpiresAt(at, ttlMs).value else at
  }

  /** On extension, without a time to live, the adapter falls back on the expiry of the lock it was given. */
  function ExtendExpiry(at: int, ttlMs: Option<int>, lockExpiresAt: int): int
  {
    if ToExpiresAt(at, ttlMs).Some? then ToExpiresAt(at, ttlMs).value else lockExpiresAt
  }

  datatype Lock = Lock(threadId: string, token: string, expiresAt: int)

  class LockRepository {
    var locks: Locks

    constructor ()
      ensures locks == map[]
    {
      locks := map[];
    }

    method AcquireLock(threadId: string, record: LockRecord, now: int) returns (acquired: Option<LockRecord>)
      modifies this
      ensures acquired.None? <==>
                && threadId in old(locks)
                && (old(locks)[threadId].expiresAt.Some? ==> old(locks)[threadId].expiresAt.value > now)
      ensures acquired.Some? ==> acquired.value == record && locks == old(locks)[threadId := record]
      ensures acquired.None? ==> locks == old(locks)
      ensures (acquired.Some?, locks) == AcquireIn(old(locks), threadId, record, now)
    {
      if threadId in locks && Expired(locks[threadId], now) {
        var next := locks - {threadId};
        assert next[threadId := record] == locks[threadId := record];
        locks := next[threadId := record];
        return Some(record);
      }
      if threadId in locks {
        return None;
      }
      locks := locks[threadId := record];
      acquired := Some(record);
    }

    method ExtendLock(threadId: string, token: string, expiresAt: Option<int>, now: int) returns (extended: bool)
      modifies this
      ensures var past := threadId in old(locks) && old(locks)[threadId].expiresAt.Some?
                          && old(locks)[threadId].expiresAt.value <= now;
              && (extended <==> threadId in old(locks) && !past && old(locks)[threadId].token == token)
              && (extended ==> locks == old(locks)[threadId := LockRecord(token, expiresAt)])
              && (!extended ==> locks == if past then old(locks) - {threadId} else old(locks))
      ensures (extended, locks) == ExtendIn(old(locks), threadId, token, expiresAt, now)
    {
      if threadId in locks && Expired(locks[threadId], now) {
        locks := locks - {threadId};
        return false;
      }
      if threadId !in locks || locks[threadId].token != token {
        return false;
      }
      locks := locks[threadId := locks[threadId].(token := token, expiresAt := expiresAt)];
      extended := true;
    }

    method ReleaseLock(threadId: string, token: string)
      modifies this
      ensures threadId in old(locks) && old(locks)[threadId].token == token ==> locks == old(locks) - {threadId}
      ensures threadId in old(locks) && old(locks)[threadId].token != token ==> locks == old(locks)
      ensures threadId !in old(locks) ==> locks == old(locks)
      ensures locks == ReleaseIn(old(locks), threadId, token)
    {
      if threadId in locks && locks[threadId].token == token {
        locks := locks - {threadId};
      }
    }
  }

  /** The adapter reads its clock at `at`, the repository its own at `now`. */
  method AdapterAcquireLock(repo: LockRepository, threadId: string, ttlMs: Option<int>, token: string, at: int,
                            now: int)
    returns (lock: Option<Lock>)
    modifies repo
    ensures lock.None? <==>
              && threadId in old(repo.locks)
              && (old(repo.locks)[threadId].expiresAt.Some? ==> old(repo.locks)[threadId].expiresAt.value > now)
    ensures lock.None? ==> repo.locks == old(repo.locks)
    ensures lock.Some? ==>
              && lock.value.threadId == threadId && lock.value.token == token
              && repo.locks == old(repo.locks)[threadId := LockRecord(token, Some(lock.value.expiresAt))]
              && (ttlMs.None? ==> lock.value.expiresAt == at)
              && (ttlMs.Some? ==> lock.value.expiresAt == at + if ttlMs.value >= 1 then ttlMs.value else 1)
    ensures repo.locks == AcquireIn(old(repo.locks), threadId, LockRecord(token, Some(AcquireExpiry(at, ttlMs))), now).1
  {
    var expiresAt := AcquireExpiry(at, ttlMs);
    var record := repo.AcquireLock(threadId, LockRecord(token, Some(expiresAt)), now);
    lock := if record.Some? then Some(Lock(threadId, token, expiresAt)) else None;
  }

  method AdapterExtendLock(repo: LockRepository, lock: Lock, ttlMs: Option<int>, at: int, now: int)
    returns (extended: bool)
    modifies repo
    ensures var was := old(repo.locks);
            && (extended ==> lock.threadId in was && was[lock.threadId].token == lock.token)
            && (extended && ttlMs.None? ==>
                  repo.locks == was[lock.threadId := LockRecord(lock.token, Some(lock.expiresAt))])
            && (extended && ttlMs.Some? ==>
                  repo.locks == was[lock.threadId := LockRecord(lock.token, Some(at + if ttlMs.value >= 1
                                                                                 then ttlMs.value else 1))])
    ensures (extended, repo.locks)
         == ExtendIn(old(repo.locks), lock.threadId, lock.token, Some(ExtendExpiry(at, ttlMs, lock.expiresAt)), now)
  {
    extended := repo.ExtendLock(lock.threadId, lock.token, Some(ExtendExpiry(at, ttlMs, lock.expiresAt)), now);
  }

  method AdapterReleaseLock(repo: LockRepository, lock: Lock)
    modifies repo
    ensures repo.locks == ReleaseIn(old(repo.locks), lock.threadId, lock.token)
    ensures lock.threadId in repo.locks ==> repo.locks[lock.threadId].token != lock.token
    ensures repo.locks - {lock.threadId} == old(repo.locks) - {lock.threadId}
  {
    repo.ReleaseLock(lock.threadId, lock.token);
  }

  // ----- Runs of any number of clients -----

  /**
   * What a client knows about a lock it was given: the lock object, the expiry last confirmed to it, and
   * whether it has released it or been refused an extension.
   */
  datatype Grant = Grant(client: nat, lock: Lock, expiresAt: int, over: bool)

  /** The stored locks, the clock, and every grant made so far by token. */
  datatype World = World(locks: Locks, now: int, grants: map<string, Grant>)

  datatype Step =
    | Acquire(client: nat, threadId: string, ttlMs: Option<int>, token: string, at: int, now: int)
    | Extend(client: nat, token: string, ttlMs: Option<int>, at: int, now: int)
    | Release(client: nat, token: string, now: int)

  /**
   * Repository calls come in time order, new tokens are fresh, and clients use only their own locks. Nothing is
   * asked of the clock a client's adapter reads, at `at`: other calls may come in between, and it may be off.
   */
  ghost predicate Enabled(s: World, step: Step)
  {
    match step
    case Acquire(_, _, _, token, _, now) => s.now <= now && token !in s.grants
    case Extend(client, token, _, _, now) => s.now <= now && token in s.grants && s.grants[token].client == client
    case Release(client, token, now) => s.now <= now && token in s.grants && s.grants[token].client == client
  }

  function Expiry(s: World, step: Step): int
    requires step.Extend? && step.token in s.grants
  {
    ExtendExpiry(step.at, step.ttlMs, s.grants[step.token].lock.expiresAt)
  }

  /** The answer the client gets. */
  function Succeeds(s: World, step: Step): bool
  {
    match step
    case Acquire(_, threadId, ttlMs, token, at, now) =>
      AcquireIn(s.locks, threadId, LockRecord(token, Some(AcquireExpiry(at, ttlMs))), now).0
    case Extend(_, token, _, _, now) =>
      token in s.grants
      && ExtendIn(s.locks, s.grants[token].lock.threadId, token, Some(Expiry(s, step)), now).0
    case Release(_, _, _) => true
  }

  function Apply(s: World, step: Step): World
  {
    match step
    case Acquire(client, threadId, ttlMs, token, at, now) =>
      var expiresAt := AcquireExpiry(at, ttlMs);
      World(
        AcquireIn(s.locks, threadId, LockRecord(token, Some(expiresAt)), now).1,
        now,
        if Succeeds(s, step)
        then s.grants[token := Grant(client, Lock(threadId, token, expiresAt), expiresAt, false)]
        else s.grants)
    case Extend(_, token, _, _, now) =>
      if token !in s.grants then s
      else
        var g := s.grants[token];
        World(
          ExtendIn(s.locks, g.lock.threadId, token, Some(Expiry(s, step)), now).1,
          now,
          s.grants[token := if Succeeds(s, step) then g.(expiresAt := Expiry(s, step)) else g.(over := true)])
    case Release(_, token, now) =>
      if token !in s.grants then s
      else
        var g := s.grants[token];
        World(ReleaseIn(s.locks, g.lock.threadId, token), now, s.grants[token := g.(over := true)])
  }

  function Run(s: World, steps: seq<Step>): World
    decreases |steps|
  {
    if steps == [] then s else Run(Apply(s, steps[0]), steps[1..])
  }

  ghost predicate Possible(s: World, steps: seq<Step>)
    decreases |steps|
  {
    steps != [] ==> Enabled(s, steps[0]) && Possible(Apply(s, steps[0]), steps[1..])
  }

  /** The client given this token rightly believes it holds the lock. */
  ghost predicate Holds(s: World, token: string)
  {
    token in s.grants && !s.grants[token].over && s.grants[token].expiresAt > s.now
  }

  ghost predicate HoldsThread(s: World, token: string, threadId: string)
  {
    Holds(s, token) && s.grants[token].lock.threadId == threadId
  }

  /** Holders and live records correspond one to one. */
  ghost predicate LocksHold(s: World)
  {
    && (forall t :: t in s.grants ==> s.grants[t].lock.token == t)
    && (forall t :: Holds(s, t) ==>
          var g := s.grants[t];
          g.lock.threadId in s.locks && s.locks[g.lock.threadId] == LockRecord(t, Some(g.expiresAt)))
    && (forall x :: x in s.locks ==>
          var r := s.locks[x];
          && r.token in s.grants
          && s.grants[r.token].lock.threadId == x
          && r.expiresAt == Some(s.grants[r.token].expiresAt)
          && !s.grants[r.token].over)
  }

  lemma AcquireKeepsLocks(s: World, step: Step)
    requires LocksHold(s) && Enabled(s, step) && step.Acquire?
    ensures LocksHold(Apply(s, step))
  {
    var t := Apply(s, step);
    forall k | Holds(t, k)
      ensures t.grants[k].lock.threadId in t.locks
      ensures t.locks[t.grants[k].lock.threadId] == LockRecord(k, Some(t.grants[k].expiresAt))
    {
      if k != step.token { assert Holds(s, k); }
    }
  }

  lemma ExtendKeepsLocks(s: World, step: Step)
    requires LocksHold(s) && Enabled(s, step) && step.Extend?
    ensures LocksHold(Apply(s, step))
  {
    var t := Apply(s, step);
    forall k | Holds(t, k)
      ensures t.grants[k].lock.threadId in t.locks
      ensures t.locks[t.grants[k].lock.threadId] == LockRecord(k, Some(t.grants[k].expiresAt))
    {
      assert Holds(s, k) || (k == step.token && Succeeds(s, step));
    }
  }

  lemma ReleaseKeepsLocks(s: World, step: Step)
    requires LocksHold(s) && Enabled(s, step) && step.Release?
    ensures LocksHold(Apply(s, step))
  {
    var t := Apply(s, step);
    forall k | Holds(t, k)
      ensures t.grants[k].lock.threadId in t.locks
      ensures t.locks[t.grants[k].lock.threadId] == LockRecord(k, Some(t.grants[k].expiresAt))
    {
      assert Holds(s, k);
    }
  }

  lemma StepKeepsLocks(s: World, step: Step)
    requires LocksHold(s) && Enabled(s, step)
    ensures LocksHold(Apply(s, step))
  {
    hide LocksHold, Apply, Enabled;
    match step
    case Acquire(_, _, _, _, _, _) => AcquireKeepsLocks(s, step);
    case Extend(_, _, _, _, _) => ExtendKeepsLocks(s, step);
    case Release(_, _, _) => ReleaseKeepsLocks(s, step);
  }

  lemma {:induction false} RunKeepsLocks(s: World, steps: seq<Step>)
    requires LocksHold(s) && Possible(s, steps)
    ensures LocksHold(Run(s, steps))
    decreases |steps|
  {
    if steps != [] {
      StepKeepsLocks(s, steps[0]);
      RunKeepsLocks(Apply(s, steps[0]), steps[1..]);
    }
  }

  /** In every run at most one client per thread holds its lock, and the store holds what it believes. */
  lemma MutualExclusion(now: int, steps: seq<Step>, a: string, b: string, threadId: string)
    requires Possible(World(map[], now, map[]), steps)
    requires HoldsThread(Run(World(map[], now, map[]), steps), a, threadId)
    ensures var s := Run(World(map[], now, map[]), steps);
            && threadId in s.locks && s.locks[threadId] == LockRecord(a, Some(s.grants[a].expiresAt))
            && (HoldsThread(s, b, threadId) ==> a == b)
  {
    RunKeepsLocks(World(map[], now, map[]), steps);
  }

  /** An acquisition fails exactly when somebody holds the thread's lock at that moment. */
  lemma AcquireFailsOnlyWhenHeld(s: World, step: Step)
    requires LocksHold(s) && Enabled(s, step) && step.Acquire?
    ensures Succeeds(s, step) <==> !exists t :: HoldsThread(s.(now := step.now), t, step.threadId)
  {
    var later := s.(now := step.now);
    if !Succeeds(s, step) {
      assert HoldsThread(later, s.locks[step.threadId].token, step.threadId);
    }
    if t :| HoldsThread(later, t, step.threadId) {
      assert Holds(s, t);
    }
  }

  /**
   * Whatever a client does with a lock that is not the holder's, the holder keeps its lock and its record, and
   * the attempt to extend is refused; the holder's own extension is granted.
   */
  lemma StaleTokenIsHarmless(s: World, step: Step, holder: string)
    requires LocksHold(s) && Enabled(s, step) && (step.Extend? || step.Release?)
    requires HoldsThread(s.(now := step.now), holder, s.grants[step.token].lock.threadId)
    ensures step.token != holder ==>
              && Apply(s, step).locks == s.locks
              && Holds(Apply(s, step), holder)
              && (step.Extend? ==> !Succeeds(s, step))
    ensures step.token == holder && step.Extend? ==> Succeeds(s, step)
  {
    assert Holds(s, holder);
  }

  /** After a release the thread is free for the next client at once. */
  lemma ReleaseFreesThread(s: World, step: Step)
    requires LocksHold(s) && Enabled(s, step) && step.Release?
    requires Holds(s, step.token)
    ensures Free(Apply(s, step).locks, s.grants[step.token].lock.threadId, step.now)
  {
    assert Holds(s, step.token);
  }

  // ----- How long a lock lasts -----

  /** When a lock asked for at `at` runs out. */
  ghost predicate RunsOut(at: int, ttlMs: int, until: int)
  {
    until == at + if ttlMs >= 1 then ttlMs else 1
  }

  /** The step does not give the lock up: no release of it, and no extension to an earlier end. */
  ghost predicate Leaves(step: Step, token: string, until: int)
  {
    && !(step.Release? && step.token == token)
    && (step.Extend? && step.token == token && step.ttlMs.Some? ==>
          forall later :: RunsOut(step.at, step.ttlMs.value, later) ==> later >= until)
  }

  ghost predicate LockedBy(s: World, token: string, threadId: string, until: int)
  {
    && token in s.grants && s.grants[token].lock.threadId == threadId && s.grants[token].lock.expiresAt == until
    && threadId in s.locks && s.locks[threadId].token == token
    && (s.locks[threadId].expiresAt.Some? ==> s.locks[threadId].expiresAt.value >= until)
  }

  lemma {:induction false} TimeRuns(s: World, steps: seq<Step>)
    requires Possible(s, steps)
    ensures Run(s, steps).now >= s.now
    decreases |steps|
  {
    if steps != [] { TimeRuns(Apply(s, steps[0]), steps[1..]); }
  }

  lemma StepLeavesLocked(s: World, step: Step, token: string, threadId: string, until: int)
    requires Enabled(s, step) && step.now < until
    requires LockedBy(s, token, threadId, until) && Leaves(step, token, until)
    requires forall t :: t in s.grants ==> s.grants[t].lock.token == t
    ensures LockedBy(Apply(s, step), token, threadId, until)
  {
    if step.Extend? && step.token == token && step.ttlMs.Some? {
      assert RunsOut(step.at, step.ttlMs.value, Expiry(s, step));
    }
  }

  lemma {:induction false} RunLeavesLocked(s: World, steps: seq<Step>, token: string, threadId: string, until: int)
    requires LocksHold(s) && Possible(s, steps) && Run(s, steps).now < until
    requires LockedBy(s, token, threadId, until)
    requires forall k :: 0 <= k < |steps| ==> Leaves(steps[k], token, until)
    ensures LockedBy(Run(s, steps), token, threadId, until)
    decreases |steps|
  {
    hide Leaves, LockedBy;
    if steps != [] {
      TimeRuns(Apply(s, steps[0]), steps[1..]);
      StepLeavesLocked(s, steps[0], token, threadId, until);
      StepKeepsLocks(s, steps[0]);
      RunLeavesLocked(Apply(s, steps[0]), steps[1..], token, threadId, until);
    }
  }

  /**
   * A granted lock lasts as long as was asked for: in every run, until `at + max(1, ttlMs)` on the repository's clock,
   * every other acquisition of the thread fails, unless the holder releases the lock or extends it to an earlier end.
   */
  lemma LockLasts(now: int, before: seq<Step>, first: Step, ttlMs: int, more: seq<Step>, rival: Step, until: int)
    requires var s := Run(World(map[], now, map[]), before);
             && Possible(World(map[], now, map[]), before)
             && first.Acquire? && first.ttlMs == Some(ttlMs) && Enabled(s, first) && Succeeds(s, first)
             && Possible(Apply(s, first), more) && Enabled(Run(Apply(s, first), more), rival)
    requires RunsOut(first.at, ttlMs, until)
    requires forall k :: 0 <= k < |more| ==> Leaves(more[k], first.token, until)
    requires rival.Acquire? && rival.threadId == first.threadId && rival.now < until
    ensures !Succeeds(Run(Apply(Run(World(map[], now, map[]), before), first), more), rival)
  {
    hide Run, Possible, Leaves, LocksHold;
    var s := Run(World(map[], now, map[]), before);
    EmptyHolds(now);
    RunKeepsLocks(World(map[], now, map[]), before);
    StepKeepsLocks(s, first);
    RunLeavesLocked(Apply(s, first), more, first.token, first.threadId, until);
  }

  lemma EmptyHolds(now: int)
    ensures LocksHold(World(map[], now, map[]))
  {
  }
}
