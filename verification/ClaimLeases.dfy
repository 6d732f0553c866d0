/**
 * Claiming due notification deliveries (minimal-persistence.ts): a claim is a lease, taken by id, that keeps an
 * attempt out of the due set until it expires or the attempt is updated.
 */
module ClaimLeases {
  import opened Basics
  import opened Sorting
  import opened Keyset
  import Text

  datatype Attempt = Attempt(
    id: string,
    tenantId: Option<string>,
    channel: string,
    destination: string,
    attempt: int,
    status: string,
    responseCode: Option<int>,
    error: Option<string>,
    nextAttemptAt: Option<int>,
    claimedAt: Option<int>,
    claimExpiresAt: Option<int>)

  const DEFAULT_TENANT_ID := "tenant-default"

  /** The lease on the attempt runs beyond `now`. */
  predicate Leased(a: Attempt, now: int)
  {
    a.claimExpiresAt.Some? && a.claimExpiresAt.value > now
  }

  /** The tests `claimDue`, `listDue` and `listDueTenantIds` share. */
  predicate Due(a: Attempt, now: int)
  {
    && (a.status == "pending" || a.status == "failed")
    && a.nextAttemptAt.Some? && a.nextAttemptAt.value <= now
    && !Leased(a, now)
  }

  /** The filter of `listDue`; an empty channel filters nothing. */
  function DueOn(channel: Option<string>, now: int): Attempt -> bool
  {
    (a: Attempt) => (channel.Some? && channel.value != "" ==> a.channel == channel.value) && Due(a, now)
  }

  lemma DueOnExactly(channel: Option<string>, now: int, a: Attempt)
    ensures DueOn(channel, now)(a) <==> Due(a, now) && (channel in {None, Some("")} || channel == Some(a.channel))
  {
  }

  /** The due set with no channel and no limit. */
  function DueSet(attempts: seq<Attempt>, now: int): seq<Attempt>
  {
    Filter((a: Attempt) => Due(a, now), attempts)
  }

  /** Where `claimDue` looks: the first due attempt with the id. */
  predicate Claims(attempts: seq<Attempt>, id: string, now: int, i: nat)
  {
    && i < |attempts|
    && attempts[i].id == id && Due(attempts[i], now)
    && forall j :: 0 <= j < i ==> !(attempts[j].id == id && Due(attempts[j], now))
  }

  predicate Claimable(attempts: seq<Attempt>, id: string, now: int)
  {
    exists i :: 0 <= i < |attempts| && attempts[i].id == id && Due(attempts[i], now)
  }

  /** A change to an optional field: absent keeps the value, `null` clears it. */
  datatype Change<T> = Keep | Clear | Set(value: T)

  datatype Patch = Patch(
    destination: Option<string>,
    attempt: Option<int>,
    status: Option<string>,
    responseCode: Option<int>,
    error: Change<string>,
    nextAttemptAt: Change<int>,
    claimedAt: Change<int>,
    claimExpiresAt: Change<int>)

  function Defined<T>(value: Option<T>, current: T): T
  {
    if value.Some? then value.value else current
  }

  function Changed<T>(current: Option<T>, c: Change<T>): Option<T>
  {
    match c
    case Keep => current
    case Clear => None
    case Set(v) => Some(v)
  }

  function Patched(a: Attempt, p: Patch): Attempt
  {
    a.(destination := Defined(p.destination, a.destination),
       attempt := Defined(p.attempt, a.attempt),
       status := Defined(p.status, a.status),
       responseCode := if p.responseCode.Some? then p.responseCode else a.responseCode,
       error := Changed(a.error, p.error),
       nextAttemptAt := Changed(a.nextAttemptAt, p.nextAttemptAt),
       claimedAt := Changed(a.claimedAt, p.claimedAt),
       claimExpiresAt := Changed(a.claimExpiresAt, p.claimExpiresAt))
  }

  /** What a change makes of an optional field. */
  ghost predicate Takes<T>(before: Option<T>, c: Change<T>, after: Option<T>)
  {
    match c
    case Keep => after == before
    case Clear => after == None
    case Set(v) => after == Some(v)
  }

  /** A patch sets what it names, keeps what it leaves out, and clears what it says to clear; nothing else changes. */
  ghost predicate PatchedTo(a: Attempt, p: Patch, b: Attempt)
  {
    && b.id == a.id && b.tenantId == a.tenantId && b.channel == a.channel
    && (p.destination.None? ==> b.destination == a.destination)
    && (forall v :: p.destination == Some(v) ==> b.destination == v)
    && (p.attempt.None? ==> b.attempt == a.attempt)
    && (forall v :: p.attempt == Some(v) ==> b.attempt == v)
    && (p.status.None? ==> b.status == a.status)
    && (forall v :: p.status == Some(v) ==> b.status == v)
    && (p.responseCode.None? ==> b.responseCode == a.responseCode)
    && (p.responseCode.Some? ==> b.responseCode == p.responseCode)
    && Takes(a.error, p.error, b.error)
    && Takes(a.nextAttemptAt, p.nextAttemptAt, b.nextAttemptAt)
    && Takes(a.claimedAt, p.claimedAt, b.claimedAt)
    && Takes(a.claimExpiresAt, p.claimExpiresAt, b.claimExpiresAt)
  }

  function TenantOf(a: Attempt): string
  {
    if a.tenantId.Some? then a.tenantId.value else DEFAULT_TENANT_ID
  }

  function IndexOf(attempts: seq<Attempt>, id: string): nat
  {
    IndexWhere((a: Attempt) => a.id == id, attempts)
  }

  class AttemptRepository {
    var attempts: seq<Attempt>

    constructor ()
      ensures attempts == []
    {
      attempts := [];
    }

    method Append(a: Attempt)
      modifies this
      ensures attempts == old(attempts) + [a.(tenantId := Some("tenant-default"))]
    {
      attempts := attempts + [a.(tenantId := Some(DEFAULT_TENANT_ID))];
    }

    /** Succeeds exactly when the id is claimable, and then leases the first due attempt with the id. */
    method ClaimDue(id: string, now: int, claimedAt: Option<int>, claimExpiresAt: Option<int>)
      returns (r: Option<Attempt>)
      modifies this
      ensures r.Some? <==> Claimable(old(attempts), id, now)
      ensures r.Some? <==>
                exists a :: a in old(attempts) && a.id == id && a.status in {"pending", "failed"}
                         && (a.nextAttemptAt.Some? && a.nextAttemptAt.value <= now)
                         && (a.claimExpiresAt.Some? ==> a.claimExpiresAt.value <= now)
      ensures r.None? ==> attempts == old(attempts)
      ensures r.Some? ==>
                exists i: nat :: Claims(old(attempts), id, now, i)
                         && r.value == old(attempts)[i].(claimedAt := claimedAt, claimExpiresAt := claimExpiresAt)
                         && attempts == old(attempts)[i := r.value]
    {
      var index := 0;
      while index < |attempts| && !(attempts[index].id == id && Due(attempts[index], now))
        invariant index <= |attempts|
        invariant forall j :: 0 <= j < index ==> !(attempts[j].id == id && Due(attempts[j], now))
      {
        index := index + 1;
      }
      if index == |attempts| {
        return None;
      }
      assert attempts[index] in attempts;
      var claimed := attempts[index].(claimedAt := claimedAt, claimExpiresAt := claimExpiresAt);
      assert Claims(attempts, id, now, index);
      attempts := attempts[index := claimed];
      r := Some(claimed);
    }

    /** The first due attempts on the channel, in stored order: all of them, or as many as the bounded limit. */
    method ListDue(now: int, channel: Option<string>, limit: Option<int>) returns (r: seq<Attempt>)
      ensures r <= Filter(DueOn(channel, now), attempts)
      ensures forall a :: a in r ==>
                && a in attempts && a.status in {"pending", "failed"}
                && (channel.None? || channel.value == "" || a.channel == channel.value)
                && (a.nextAttemptAt.Some? && a.nextAttemptAt.value <= now)
                && (a.claimExpiresAt.Some? ==> a.claimExpiresAt.value <= now)
      ensures |r| < BoundedLimit(limit) ==> r == Filter(DueOn(channel, now), attempts)
      ensures |r| <= BoundedLimit(limit)
    {
      var due := Filter(DueOn(channel, now), attempts);
      FilterMembers(DueOn(channel, now), attempts);
      r := if |due| <= BoundedLimit(limit) then due else due[..BoundedLimit(limit)];
    }

    /** The sorted list of exactly the tenants with a due attempt, each once. */
    method ListDueTenantIds(now: int) returns (r: seq<string>)
      ensures StrictlySorted(Text.Less, r)
      ensures forall t :: t in r <==> exists a :: a in DueSet(attempts, now) && TenantOf(a) == t
      ensures forall a :: a in attempts && Due(a, now) ==>
                (a.tenantId.Some? ==> a.tenantId.value in r) && (a.tenantId.None? ==> "tenant-default" in r)
    {
      var tenantIds: seq<string> := [];
      for k := 0 to |attempts|
        invariant Distinct(tenantIds)
        invariant forall t :: t in tenantIds <==>
                    exists j :: 0 <= j < k && Due(attempts[j], now) && TenantOf(attempts[j]) == t
      {
        if Due(attempts[k], now) && TenantOf(attempts[k]) !in tenantIds {
          tenantIds := tenantIds + [TenantOf(attempts[k])];
        }
      }
      r := Sort(Text.Less, tenantIds);
      SortedNames(tenantIds);
      DueMembers(attempts, now);
      forall t ensures t in r <==> exists a :: a in DueSet(attempts, now) && TenantOf(a) == t {
        if t in tenantIds {
          var j :| 0 <= j < |attempts| && Due(attempts[j], now) && TenantOf(attempts[j]) == t;
          assert attempts[j] in DueSet(attempts, now);
        }
      }
    }

    method Update(id: string, p: Patch) returns (r: Option<Attempt>)
      modifies this
      ensures var i := IndexOf(old(attempts), id);
              if i == |old(attempts)| then r == None && attempts == old(attempts)
              else r == Some(Patched(old(attempts)[i], p)) && attempts == old(attempts)[i := r.value]
      ensures r.None? <==> forall j :: 0 <= j < |old(attempts)| ==> old(attempts)[j].id != id
      ensures r.Some? ==>
                exists i: nat ::
                  && i < |old(attempts)| && old(attempts)[i].id == id
                  && (forall j :: 0 <= j < i ==> old(attempts)[j].id != id)
                  && PatchedTo(old(attempts)[i], p, r.value) && attempts == old(attempts)[i := r.value]
    {
      var index := IndexOf(attempts, id);
      if index == |attempts| {
        return None;
      }
      var updated := Patched(attempts[index], p);
      attempts := attempts[index := updated];
      r := Some(updated);
    }
  }

  lemma SortedNames(names: seq<string>)
    requires Distinct(names)
    ensures StrictlySorted(Text.Less, Sort(Text.Less, names))
    ensures forall t :: t in Sort(Text.Less, names) <==> t in names
  {
    var r := Sort(Text.Less, names);
    Text.LessOrder();
    SortMembers(Text.Less, names);
    SortKeepsDistinct(Text.Less, names);
    assert WeakOrder(Text.Less) by {
      forall a, b, c | Text.Less(a, c) ensures Text.Less(a, b) || Text.Less(b, c) {
        assert a == b || Text.Less(a, b) || Text.Less(b, a);
      }
    }
    SortSorts(Text.Less, names);
    forall i, j | 0 <= i < j < |r| ensures Text.Less(r[i], r[j]) {
      assert r[i] != r[j] && !Text.Less(r[j], r[i]);
    }
  }

  lemma DueMembers(attempts: seq<Attempt>, now: int)
    ensures forall a :: a in DueSet(attempts, now) <==> a in attempts && Due(a, now)
  {
    FilterMembers((a: Attempt) => Due(a, now), attempts);
  }

  /** `claimDue` succeeds exactly on the members of the due set that `listDue` computes. */
  lemma ClaimableIsDue(attempts: seq<Attempt>, id: string, now: int)
    ensures Claimable(attempts, id, now) <==> exists a :: a in DueSet(attempts, now) && a.id == id
  {
    DueMembers(attempts, now);
    if a :| a in DueSet(attempts, now) && a.id == id {
      var i :| 0 <= i < |attempts| && attempts[i] == a;
    }
    if Claimable(attempts, id, now) {
      var i :| 0 <= i < |attempts| && attempts[i].id == id && Due(attempts[i], now);
      assert attempts[i] in DueSet(attempts, now);
    }
  }

  // ----- Runs: leases never overlap -----

  datatype State = State(attempts: seq<Attempt>, now: int)

  datatype Step =
    | Claim(id: string, now: int, claimedAt: Option<int>, claimExpiresAt: Option<int>)
    | Modify(id: string, patch: Patch, now: int)
    | Add(attempt: Attempt, now: int)

  /** The attempt a claim takes; the length when it takes none. */
  function Taken(attempts: seq<Attempt>, id: string, now: int): (i: nat)
    ensures i <= |attempts|
    ensures i < |attempts| <==> Claimable(attempts, id, now)
    ensures i < |attempts| ==> Claims(attempts, id, now, i)
  {
    if attempts == [] then 0
    else if attempts[0].id == id && Due(attempts[0], now) then 0
    else
      var i := Taken(attempts[1..], id, now);
      assert forall j :: 1 <= j < |attempts| ==> attempts[j] == attempts[1..][j - 1];
      i + 1
  }

  function Apply(s: State, step: Step): State
  {
    match step
    case Claim(id, now, claimedAt, claimExpiresAt) =>
      var i := Taken(s.attempts, id, now);
      State(if i < |s.attempts|
            then s.attempts[i := s.attempts[i].(claimedAt := claimedAt, claimExpiresAt := claimExpiresAt)]
            else s.attempts, now)
    case Modify(id, patch, now) =>
      var i := IndexOf(s.attempts, id);
      State(if i < |s.attempts| then s.attempts[i := Patched(s.attempts[i], patch)] else s.attempts, now)
    case Add(attempt, now) =>
      State(s.attempts + [attempt.(tenantId := Some(DEFAULT_TENANT_ID))], now)
  }

  function Run(s: State, steps: seq<Step>): State
    decreases |steps|
  {
    if steps == [] then s else Run(Apply(s, steps[0]), steps[1..])
  }

  /** Time does not run backwards, and no update reaches attempt `k`. */
  ghost predicate Undisturbed(s: State, steps: seq<Step>, k: nat)
    decreases |steps|
  {
    steps != [] ==>
      && s.now <= steps[0].now
      && (steps[0].Modify? ==> IndexOf(s.attempts, steps[0].id) != k)
      && Undisturbed(Apply(s, steps[0]), steps[1..], k)
  }

  /** Until a lease has run out it stays on the attempt, however many other claims are made. */
  lemma {:induction false} LeaseStays(s: State, steps: seq<Step>, k: nat, expiry: int)
    requires Undisturbed(s, steps, k) && k < |s.attempts|
    requires s.now >= expiry || s.attempts[k].claimExpiresAt == Some(expiry)
    ensures var t := Run(s, steps);
            k < |t.attempts| && (t.now >= expiry || t.attempts[k].claimExpiresAt == Some(expiry))
    decreases |steps|
  {
    if steps != [] {
      var t := Apply(s, steps[0]);
      if steps[0].Claim? && Taken(s.attempts, steps[0].id, steps[0].now) == k {
        assert !Leased(s.attempts[k], steps[0].now);
      }
      LeaseStays(t, steps[1..], k, expiry);
    }
  }

  /**
   * Two successful claims of one attempt, with no update to it in between, are never both live: when the second
   * succeeds, the lease of the first has run out.
   */
  lemma LeasesNeverOverlap(s: State, first: Step, between: seq<Step>, second: Step, k: nat)
    requires first.Claim? && second.Claim?
    requires Undisturbed(s, [first] + between + [second], k)
    requires k < |s.attempts| && Taken(s.attempts, first.id, first.now) == k
    requires Taken(Run(Apply(s, first), between).attempts, second.id, second.now) == k
    ensures first.claimExpiresAt.Some? ==> first.claimExpiresAt.value <= second.now
  {
    var steps := [first] + between + [second];
    assert steps[1..] == between + [second];
    UndisturbedSplits(Apply(s, first), between, [second], k);
    if first.claimExpiresAt.Some? {
      LeaseStays(Apply(s, first), between, k, first.claimExpiresAt.value);
    }
  }

  lemma {:induction false} UndisturbedSplits(s: State, a: seq<Step>, b: seq<Step>, k: nat)
    requires Undisturbed(s, a + b, k)
    ensures Undisturbed(s, a, k) && Undisturbed(Run(s, a), b, k)
    decreases |a|
  {
    if a == [] {
      assert a + b == b;
    } else {
      assert (a + b)[1..] == a[1..] + b;
      UndisturbedSplits(Apply(s, a[0]), a[1..], b, k);
    }
  }
}
