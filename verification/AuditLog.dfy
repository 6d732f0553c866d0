/**
 * The audit event store (minimal-persistence.ts) and the service that appends to it (audit/service.ts).
 */
module AuditLog {
  import opened Basics
  import opened CanonicalJson
  import opened AuditHash
  import opened Keyset
  import Text

  datatype AuditBody = AuditBody(
    actor: string,
    action: string,
    target: string,
    requestId: Option<string>,
    before: Json,
    after: Json,
    reason: Json,
    hash: string,
    prevHash: Option<string>,
    sequence: nat)

  type AuditEvent = Entry<AuditBody>

  datatype AuditError = DuplicateAuditEvent(id: string)

  // ----- Queries -----

  function ForRequest(requestId: string): AuditEvent -> bool
  {
    (e: AuditEvent) => e.body.requestId == Some(requestId)
  }

  /** `listByRequestId`: the request's events in the order they were appended. */
  function Chain(events: seq<AuditEvent>, requestId: string): seq<AuditEvent>
  {
    Filter(ForRequest(requestId), events)
  }

  lemma ChainIsExact(events: seq<AuditEvent>, requestId: string)
    ensures forall e :: e in Chain(events, requestId) <==> e in events && e.body.requestId == Some(requestId)
  {
    FilterMembers(ForRequest(requestId), events);
  }

  datatype AuditQuery = AuditQuery(
    requestId: Option<string>,
    requestIds: Option<set<string>>,
    actor: Option<string>,
    action: Option<string>,
    createdAfter: Option<int>,
    createdBefore: Option<int>)

  /** The filters of `auditEvents.list`; both time bounds are inclusive, empty texts filter nothing. */
  function Keeps(q: AuditQuery): AuditEvent -> bool
  {
    (e: AuditEvent) =>
      && (OrEmpty(q.requestId) != "" ==> e.body.requestId == q.requestId)
      && (q.requestIds.Some? ==> e.body.requestId.Some? && e.body.requestId.value in q.requestIds.value)
      && (OrEmpty(q.actor) != "" ==> e.body.actor == q.actor.value)
      && (OrEmpty(q.action) != "" ==> e.body.action == q.action.value)
      && (q.createdAfter.Some? ==> e.createdAt >= q.createdAfter.value)
      && (q.createdBefore.Some? ==> e.createdAt <= q.createdBefore.value)
  }

  /** What a query lists, filter by filter: an absent filter and an empty text let everything through. */
  lemma KeepsExactly(q: AuditQuery, e: AuditEvent)
    ensures Keeps(q)(e) <==>
              && (q.requestId in {None, Some("")} || e.body.requestId == q.requestId)
              && (q.requestIds.None? || exists r :: r in q.requestIds.value && e.body.requestId == Some(r))
              && (q.actor in {None, Some("")} || q.actor == Some(e.body.actor))
              && (q.action in {None, Some("")} || q.action == Some(e.body.action))
              && (forall t :: q.createdAfter == Some(t) ==> e.createdAt >= t)
              && (forall t :: q.createdBefore == Some(t) ==> e.createdAt <= t)
  {
  }

  // ----- Appending -----

  predicate HasId(events: seq<AuditEvent>, id: string)
  {
    exists i :: 0 <= i < |events| && events[i].id == id
  }

  function AppendUnique(events: seq<AuditEvent>, e: AuditEvent): Result<seq<AuditEvent>, AuditError>
  {
    if HasId(events, e.id) then Err(DuplicateAuditEvent(e.id)) else Ok(events + [e])
  }

  datatype AppendInput = AppendInput(
    id: Option<string>,
    requestId: Option<string>,
    actor: string,
    action: string,
    target: string,
    before: Json,
    after: Json,
    reason: Json,
    createdAt: int)

  datatype Appended = Appended(id: string, hash: string, sequence: nat)

  /** `{ ...members, [key]: value }`: an existing key keeps its place. */
  function WithMember(ms: seq<Member>, key: string, value: Json): (r: seq<Member>)
  {
    if ms == [] then [Member(key, value)]
    else if ms[0].key == key then [Member(key, value)] + ms[1..]
    else [ms[0]] + WithMember(ms[1..], key, value)
  }

  function MergedReason(reason: Json, correlationId: string): Json
  {
    var base := if reason.Obj? then reason.members else [Member("value", reason)];
    Obj(WithMember(base, "correlationId", Str(correlationId)))
  }

  ghost predicate HasKey(ms: seq<Member>, key: string)
  {
    exists i :: 0 <= i < |ms| && ms[i].key == key
  }

  lemma {:induction false} WithMemberKeys(ms: seq<Member>, key: string, value: Json)
    requires UniqueKeys(ms)
    ensures UniqueKeys(WithMember(ms, key, value))
    ensures forall k :: HasKey(WithMember(ms, key, value), k) ==> k == key || HasKey(ms, k)
  {
    if ms != [] && ms[0].key != key {
      var rest, r := ms[1..], WithMember(ms[1..], key, value);
      WithMemberKeys(rest, key, value);
      forall k | HasKey(rest, k) ensures HasKey(ms, k) && k != ms[0].key {
        var j :| 0 <= j < |rest| && rest[j].key == k;
        assert ms[j + 1].key == k;
      }
      forall i | 0 <= i < |r| ensures r[i].key != ms[0].key { assert HasKey(r, r[i].key); }
      forall k | HasKey([ms[0]] + r, k) && k != ms[0].key ensures HasKey(r, k) {
        var i :| 0 <= i < |r| + 1 && ([ms[0]] + r)[i].key == k;
        assert r[i - 1].key == k;
      }
    }
  }

  /** Adding a member overrides the key's value and leaves every other member alone. */
  lemma {:induction false} WithMemberFields(ms: seq<Member>, key: string, value: Json)
    requires WellFormed(value) && forall i :: 0 <= i < |ms| ==> WellFormed(ms[i].value)
    requires UniqueKeys(ms)
    ensures forall i :: 0 <= i < |WithMember(ms, key, value)| ==> WellFormed(WithMember(ms, key, value)[i].value)
    ensures Fields(WithMember(ms, key, value)) == Fields(ms)[key := Meaning(value)]
  {
    hide WellFormed;
    if ms != [] {
      if ms[0].key != key {
        WithMemberFields(ms[1..], key, value);
        assert WithMember(ms, key, value)[1..] == WithMember(ms[1..], key, value);
      } else {
        assert WithMember(ms, key, value)[1..] == ms[1..];
      }
    }
  }

  /** The merged reason is well-formed and carries the given one. */
  lemma MergedReasonMeaning(reason: Json, correlationId: string)
    requires WellFormed(reason)
    ensures ReasonCarries(MergedReason(reason, correlationId), reason, correlationId)
  {
    var base := if reason.Obj? then reason.members else [Member("value", reason)];
    WithMemberKeys(base, "correlationId", Str(correlationId));
    WithMemberFields(base, "correlationId", Str(correlationId));
  }

  /** The text a time contributes to the payload. */
  function Stamp(ms: int): string
  {
    if ms < 0 then "-" + Text.Decimal(-ms) else Text.Decimal(ms)
  }

  function StampValue(s: string): int
  {
    if s != "" && s[0] == '-' then -Text.DecimalValue(s[1..]) else Text.DecimalValue(s)
  }

  lemma StampIsRead(ms: int)
    ensures StampValue(Stamp(ms)) == ms
  {
    Text.DecimalIsRead(if ms < 0 then -ms else ms);
    if ms < 0 {
      assert Stamp(ms)[1..] == Text.Decimal(-ms);
    } else {
      assert Stamp(ms)[0] in Text.DIGITS && '-' !in Text.DIGITS;
    }
  }

  lemma StampHasNoBar(ms: int)
    ensures Text.Free('|', Stamp(ms))
  {
  }

  /** The hash input of an event, with the previous hash supplied by whoever hashes it. */
  function InputOf(e: AuditEvent, prevHash: Option<string>): HashInput
  {
    HashInput(e.body.actor, e.body.action, e.body.target, e.body.requestId, e.body.before, e.body.after,
              e.body.reason, prevHash, e.body.sequence, Stamp(e.createdAt))
  }

  function ExpectedHash(digest: HashInput -> string, e: AuditEvent, prevHash: Option<string>): string
  {
    digest(InputOf(e, prevHash))
  }

  function HashOf(e: Option<AuditEvent>): Option<string>
  {
    if e.Some? then Some(e.value.body.hash) else None
  }

  /** The event the service builds after reading the last event of the request. */
  function Prepared(
      digest: HashInput -> string, input: AppendInput, freshId: string, correlationId: string,
      previous: Option<AuditEvent>): (e: AuditEvent)
  {
    var sequence := (if previous.Some? then previous.value.body.sequence else 0) + 1;
    var id := if input.id.Some? then input.id.value else freshId;
    var unhashed := Entry(input.createdAt, id,
      AuditBody(input.actor, input.action, input.target, input.requestId, input.before, input.after,
                MergedReason(input.reason, correlationId), "", HashOf(previous), sequence));
    unhashed.(body := unhashed.body.(hash := ExpectedHash(digest, unhashed, HashOf(previous))))
  }

  ghost predicate WellFormedInput(input: AppendInput)
  {
    WellFormed(input.before) && WellFormed(input.after) && WellFormed(input.reason)
  }

  /** What the service is given can be hashed unambiguously. */
  ghost predicate ReadableInput(input: AppendInput)
  {
    && WellFormedInput(input)
    && Text.Free('|', input.actor) && Text.Free('|', input.action) && Text.Free('|', input.target)
    && Text.Free('|', OrEmpty(input.requestId))
  }

  /** The stored event says what the caller said; its reason holds the correlation id besides. */
  lemma PreparedCarriesInput(digest: HashInput -> string, input: AppendInput, freshId: string, correlationId: string,
                             previous: Option<AuditEvent>)
    ensures var e := Prepared(digest, input, freshId, correlationId, previous);
            && e.id == (if input.id.Some? then input.id.value else freshId)
            && e.createdAt == input.createdAt && e.body.requestId == input.requestId
            && e.body.actor == input.actor && e.body.action == input.action && e.body.target == input.target
            && e.body.before == input.before && e.body.after == input.after
            && (WellFormed(input.reason) ==> ReasonCarries(e.body.reason, input.reason, correlationId))
  {
    hide WellFormed;
    if WellFormed(input.reason) { MergedReasonMeaning(input.reason, correlationId); }
  }

  /** A JSON object with the given reason's members, or the reason as `value`, and the correlation id on top. */
  ghost predicate ReasonCarries(stored: Json, given: Json, correlationId: string)
  {
    && WellFormed(stored)
    && var members := if given.Obj? then Fields(given.members) else map["value" := Meaning(given)];
       Meaning(stored) == VObj(members["correlationId" := VStr(correlationId)])
  }

  /** The prior event: none when the input carries no request, or an empty one. */
  function Previous(events: seq<AuditEvent>, requestId: Option<string>): Option<AuditEvent>
  {
    if OrEmpty(requestId) == "" then None else Last(Chain(events, requestId.value))
  }

  class AuditRepository {
    var events: seq<AuditEvent>

    constructor ()
      ensures events == []
    {
      events := [];
    }

    method Append(record: AuditEvent) returns (r: Result<AuditEvent, AuditError>)
      modifies this
      ensures HasId(old(events), record.id) ==> r == Err(DuplicateAuditEvent(record.id)) && events == old(events)
      ensures !HasId(old(events), record.id) ==> r == Ok(record) && events == old(events) + [record]
      ensures old(UniqueIds(events)) ==> UniqueIds(events)
    {
      if HasId(events, record.id) {
        return Err(DuplicateAuditEvent(record.id));
      }
      events := events + [record];
      r := Ok(record);
    }

    method ListByRequestId(requestId: string) returns (r: seq<AuditEvent>)
      ensures r == Chain(events, requestId)
    {
      r := Chain(events, requestId);
    }

    method List(q: AuditQuery, cursor: Option<Cursor>, limit: Option<int>) returns (page: Page<AuditBody>)
      ensures page == ListPage(events, Keeps(q), cursor, BoundedLimit(limit))
    {
      page := ListPage(events, Keeps(q), cursor, BoundedLimit(limit));
    }
  }

  /** `appendAuditEvent`, run without interference: read the tip, hash, append. */
  method AppendAuditEvent(
      repo: AuditRepository, digest: HashInput -> string, input: AppendInput, freshId: string, correlationId: string)
    returns (r: Result<Appended, AuditError>)
    modifies repo
    ensures var id := if input.id.Some? then input.id.value else freshId;
            r.Ok? <==> !HasId(old(repo.events), id)
    ensures r.Err? ==> repo.events == old(repo.events)
    ensures r.Ok? ==>
              && |repo.events| == |old(repo.events)| + 1
              && repo.events[..|old(repo.events)|] == old(repo.events)
              && var e, tip := repo.events[|old(repo.events)|], Previous(old(repo.events), input.requestId);
              && r.value == Appended(e.id, e.body.hash, e.body.sequence)
              && e == Prepared(digest, input, freshId, correlationId, tip)
              && e.id == (if input.id.Some? then input.id.value else freshId)
              && e.createdAt == input.createdAt && e.body.requestId == input.requestId
              && e.body.actor == input.actor && e.body.action == input.action && e.body.target == input.target
              && e.body.before == input.before && e.body.after == input.after
              && (WellFormed(input.reason) ==> ReasonCarries(e.body.reason, input.reason, correlationId))
              && e.body.prevHash == HashOf(tip)
              && e.body.hash == ExpectedHash(digest, e, e.body.prevHash)
              && e.body.sequence == 1 + if tip.Some? then tip.value.body.sequence else 0
  {
    var prior: seq<AuditEvent> := [];
    if input.requestId.Some? && |input.requestId.value| > 0 {
      prior := repo.ListByRequestId(input.requestId.value);
    }
    var e := Prepared(digest, input, freshId, correlationId, Last(prior));
    PreparedCarriesInput(digest, input, freshId, correlationId, Last(prior));
    var appended := repo.Append(e);
    match appended
    case Err(error) => r := Err(error);
    case Ok(_) => r := Ok(Appended(e.id, e.body.hash, e.body.sequence));
  }
}
