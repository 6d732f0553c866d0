/**
 * The event-sourced lifecycle service (lifecycle/service.ts) and the appeal routes that drive it
 * (routes/requests.ts). A call runs as one step; the legal clock is an arbitrary function.
 */
module LifecycleService {
  import opened Basics
  import opened ClockSegments
  import opened LifecycleRules

  /** The stored policy decision, as the guards read it. */
  datatype Decision = NoDecision | Decision(refusalEligible: bool, appealEligible: Option<bool>)

  datatype Verdict = Approve | Deny | Partial

  datatype Appeal = Appeal(id: string, verdict: Option<Verdict>)

  datatype Request = Request(
    id: string,
    status: Status,
    captureKey: Option<string>,
    decision: Decision,
    appeals: seq<Appeal>,
    dueAt: int)

  datatype TimelineEvent = TimelineEvent(requestId: string, eventType: EventType, idempotencyKey: Option<string>)

  /** Lifecycle entries carry the status after the action, and before it unless it created the request. */
  datatype AuditEntry =
    | LifecycleEntry(requestId: string, before: Option<Status>, after: Status)
    | AppealEntry(requestId: string, appealId: string)

  datatype Store = Store(
    requests: seq<Request>, timeline: seq<TimelineEvent>, audit: seq<AuditEntry>, segments: seq<Segment>)

  datatype Computed = Computed(segments: seq<Segment>, finalDueAt: int)

  type Clock = (Request, seq<TimelineEvent>, seq<Segment>) -> Computed

  datatype ServiceError =
    | InvalidIntake
    | MissingRequest
    | RefusalBlocked
    | Rejected(reason: TransitionError)
    | AppealsUnavailable
    | MissingAppeal
    | RequestClosed

  datatype Summary = Summary(id: string, status: Status, dueAt: int)

  function SummaryOf(r: Request): Summary
  {
    Summary(r.id, r.status, r.dueAt)
  }

  // ----- Queries -----

  predicate Truthy(key: Option<string>)
  {
    key.Some? && key.value != ""
  }

  function IndexOf(requests: seq<Request>, id: string): nat
  {
    IndexWhere((r: Request) => r.id == id, requests)
  }

  /** The first request captured under the key; the number of requests when there is none. */
  function IndexOfKey(requests: seq<Request>, key: string): nat
  {
    IndexWhere((r: Request) => r.captureKey == Some(key), requests)
  }

  function EventOf(requestId: string): TimelineEvent -> bool
  {
    (e: TimelineEvent) => e.requestId == requestId
  }

  function TimelineOf(timeline: seq<TimelineEvent>, requestId: string): seq<TimelineEvent>
  {
    Filter(EventOf(requestId), timeline)
  }

  function SegmentOf(requestId: string): Segment -> bool
  {
    (s: Segment) => s.requestId == requestId
  }

  function SegmentsOf(segments: seq<Segment>, requestId: string): seq<Segment>
  {
    Filter(SegmentOf(requestId), segments)
  }

  /** The request's events and segments are those that carry its id. */
  lemma ViewsAreExact(timeline: seq<TimelineEvent>, segments: seq<Segment>, requestId: string)
    ensures forall e :: e in TimelineOf(timeline, requestId) <==> e in timeline && e.requestId == requestId
    ensures forall s :: s in SegmentsOf(segments, requestId) <==> s in segments && s.requestId == requestId
  {
    FilterMembers(EventOf(requestId), timeline);
    FilterMembers(SegmentOf(requestId), segments);
  }

  predicate KeyUsed(timeline: seq<TimelineEvent>, requestId: string, key: string)
  {
    var events := TimelineOf(timeline, requestId);
    exists i :: 0 <= i < |events| && events[i].idempotencyKey == Some(key)
  }

  // ----- The service calls as functions on the store -----

  datatype CaptureInput = CaptureInput(
    receivedAt: Option<int>, key: Option<string>, freshId: string, decision: Decision, dueAt: int)

  /** Append the event, recompute the clock, store the new segments, and set status and due date. */
  function Recorded(st: Store, clock: Clock, i: nat, event: TimelineEvent, to: Status): Store
    requires i < |st.requests|
  {
    var current := st.requests[i];
    var timeline := st.timeline + [event];
    var existing := SegmentsOf(st.segments, current.id);
    var computed := clock(current, TimelineOf(timeline, current.id), existing);
    st.(timeline := timeline,
        segments := st.segments + Dedupe(computed.segments, Signatures(existing), current.id),
        requests := st.requests[i := current.(status := to, dueAt := computed.finalDueAt)])
  }

  function CaptureIn(st: Store, clock: Clock, input: CaptureInput): (Result<Summary, ServiceError>, Store)
  {
    if input.receivedAt.None? then (Err(InvalidIntake), st)
    else if Truthy(input.key) && IndexOfKey(st.requests, input.key.value) < |st.requests| then
      (Ok(SummaryOf(st.requests[IndexOfKey(st.requests, input.key.value)])), st)
    else
      var request := Request(input.freshId, Captured, input.key, input.decision, [], input.dueAt);
      var event := TimelineEvent(input.freshId, CaptureEvent, None);
      var computed := clock(request, [event], []);
      var stored := request.(dueAt := computed.finalDueAt);
      (Ok(SummaryOf(stored)),
       Store(st.requests + [stored],
             st.timeline + [event],
             st.audit + [LifecycleEntry(input.freshId, None, Captured)],
             st.segments + Dedupe(computed.segments, {}, input.freshId)))
  }

  datatype TransitionInput = TransitionInput(
    requestId: string, action: Action, rationale: Option<string>, key: Option<string>)

  function TransitionIn(st: Store, clock: Clock, input: TransitionInput): (Result<Summary, ServiceError>, Store)
  {
    var i := IndexOf(st.requests, input.requestId);
    if i == |st.requests| then (Err(MissingRequest), st)
    else
      var current := st.requests[i];
      if Truthy(input.key) && KeyUsed(st.timeline, input.requestId, input.key.value) then (Ok(SummaryOf(current)), st)
      else if input.action == Refuse && current.decision.Decision? && !current.decision.refusalEligible then
        (Err(RefusalBlocked), st)
      else
        var applied := ApplyTransition(input.action, current.status, input.rationale);
        if applied.Err? then (Err(Rejected(applied.error)), st)
        else
          var event := TimelineEvent(input.requestId, ToEventType(input.action), input.key);
          var recorded := Recorded(st, clock, i, event, applied.value);
          (Ok(SummaryOf(recorded.requests[i])),
           recorded.(audit := st.audit + [LifecycleEntry(input.requestId, Some(current.status), applied.value)]))
  }

  function SubmitAppealIn(st: Store, requestId: string, freshAppealId: string): (Result<string, ServiceError>, Store)
  {
    var i := IndexOf(st.requests, requestId);
    if i == |st.requests| then (Err(MissingRequest), st)
    else
      var current := st.requests[i];
      if current.decision.Decision? && current.decision.appealEligible == Some(false) then (Err(AppealsUnavailable), st)
      else
        (Ok(freshAppealId),
         st.(requests := st.requests[i := current.(appeals := current.appeals + [Appeal(freshAppealId, None)])],
             timeline := st.timeline + [TimelineEvent(requestId, OtherEvent("appeal_submitted"), None)],
             audit := st.audit + [AppealEntry(requestId, freshAppealId)]))
  }

  function IndexOfAppeal(appeals: seq<Appeal>, id: string): nat
  {
    IndexWhere((a: Appeal) => a.id == id, appeals)
  }

  /** The one idempotency key under which an appeal can overturn a refusal. */
  function OverturnKey(requestId: string, appealId: string): string
  {
    "appeal-overturn:" + requestId + ":" + appealId
  }

  function OverturnInput(requestId: string, appealId: string, explanation: Option<string>): TransitionInput
  {
    TransitionInput(requestId, OverturnOnAppeal,
                    if explanation.Some? then explanation else Some("Appeal approved."),
                    Some(OverturnKey(requestId, appealId)))
  }

  function DecideAppealIn(
      st: Store, clock: Clock, requestId: string, appealId: string, verdict: Verdict, explanation: Option<string>)
    : (Result<Verdict, ServiceError>, Store)
  {
    var i := IndexOf(st.requests, requestId);
    if i == |st.requests| then (Err(MissingRequest), st)
    else
      var current := st.requests[i];
      var k := IndexOfAppeal(current.appeals, appealId);
      if k == |current.appeals| then (Err(MissingAppeal), st)
      else if current.status == Closed then (Err(RequestClosed), st)
      else
        var (overturned, st1) :=
          if verdict == Approve && current.status == Refused
          then TransitionIn(st, clock, OverturnInput(requestId, appealId, explanation))
          else (Ok(SummaryOf(current)), st);
        var j := IndexOf(st1.requests, requestId);
        if overturned.Err? then (Err(overturned.error), st1)
        else if j == |st1.requests| then (Err(MissingRequest), st1)
        else
          var nextAppeals := current.appeals[k := current.appeals[k].(verdict := Some(verdict))];
          (Ok(verdict),
           st1.(requests := st1.requests[j := st1.requests[j].(appeals := nextAppeals)],
                timeline := st1.timeline + [TimelineEvent(requestId, OtherEvent("appeal_decided"), None)],
                audit := st1.audit + [AppealEntry(requestId, appealId)]))
  }

  // ----- The service -----

  class RequestService {
    const clock: Clock
    var requests: seq<Request>
    var timeline: seq<TimelineEvent>
    var audit: seq<AuditEntry>
    var segments: seq<Segment>

    constructor (clock: Clock)
      ensures this.clock == clock && State() == Store([], [], [], [])
    {
      this.clock := clock;
      requests, timeline, audit, segments := [], [], [], [];
    }

    function State(): Store
      reads this
    {
      Store(requests, timeline, audit, segments)
    }

    /** Stores the segments of a computation that the request does not have yet, one at a time. */
    method AppendSegments(computed: seq<Segment>, requestId: string)
      modifies this`segments
      ensures segments == old(segments) + Dedupe(computed, Signatures(SegmentsOf(old(segments), requestId)), requestId)
    {
      var pending := DedupeClockSegments(computed, SegmentsOf(segments, requestId), requestId);
      var k := 0;
      while k < |pending|
        invariant k <= |pending| && segments == old(segments) + pending[..k]
      {
        segments := segments + [pending[k]];
        k := k + 1;
      }
      assert pending[..k] == pending;
    }

    method Capture(input: CaptureInput) returns (r: Result<Summary, ServiceError>)
      requires TimelineOf(timeline, input.freshId) == [] && SegmentsOf(segments, input.freshId) == []
      modifies this
      ensures (r, State()) == CaptureIn(old(State()), clock, input)
    {
      if input.receivedAt.None? {
        return Err(InvalidIntake);
      }
      if Truthy(input.key) {
        var i := IndexOfKey(requests, input.key.value);
        if i < |requests| {
          return Ok(SummaryOf(requests[i]));
        }
      }
      var request := Request(input.freshId, Captured, input.key, input.decision, [], input.dueAt);
      requests := requests + [request];
      var event := TimelineEvent(input.freshId, CaptureEvent, None);
      timeline := timeline + [event];
      audit := audit + [LifecycleEntry(input.freshId, None, Captured)];
      var computed := clock(request, [event], []);
      assert Signatures(SegmentsOf(segments, input.freshId)) == {};
      AppendSegments(computed.segments, input.freshId);
      requests := requests[|requests| - 1 := request.(dueAt := computed.finalDueAt)];
      assert requests == old(requests) + [request.(dueAt := computed.finalDueAt)];
      r := Ok(SummaryOf(requests[|requests| - 1]));
    }

    /** A repeated key changes nothing and answers with the request as it is. */
    method Transition(input: TransitionInput) returns (r: Result<Summary, ServiceError>)
      modifies this
      ensures (r, State()) == TransitionIn(old(State()), clock, input)
      ensures Truthy(input.key) && KeyUsed(old(timeline), input.requestId, input.key.value) ==> State() == old(State())
      ensures r.Err? ==> State() == old(State())
      ensures r.Ok? && Truthy(input.key) ==> KeyUsed(timeline, input.requestId, input.key.value)
    {
      var i := IndexOf(requests, input.requestId);
      if i == |requests| {
        return Err(MissingRequest);
      }
      var current := requests[i];
      if Truthy(input.key) && KeyUsed(timeline, input.requestId, input.key.value) {
        return Ok(SummaryOf(current));
      }
      if input.action == Refuse && current.decision.Decision? && !current.decision.refusalEligible {
        return Err(RefusalBlocked);
      }
      var applied := ApplyTransition(input.action, current.status, input.rationale);
      if applied.Err? {
        return Err(Rejected(applied.error));
      }
      var event := TimelineEvent(input.requestId, ToEventType(input.action), input.key);
      AppendedKeyIsUsed(timeline, event);
      timeline := timeline + [event];
      var computed := clock(current, TimelineOf(timeline, current.id), SegmentsOf(segments, current.id));
      AppendSegments(computed.segments, current.id);
      requests := requests[i := current.(status := applied.value, dueAt := computed.finalDueAt)];
      audit := audit + [LifecycleEntry(input.requestId, Some(current.status), applied.value)];
      r := Ok(SummaryOf(requests[i]));
    }

    method SubmitAppeal(requestId: string, freshAppealId: string) returns (r: Result<string, ServiceError>)
      modifies this
      ensures (r, State()) == SubmitAppealIn(old(State()), requestId, freshAppealId)
    {
      var i := IndexOf(requests, requestId);
      if i == |requests| {
        return Err(MissingRequest);
      }
      var current := requests[i];
      if current.decision.Decision? && current.decision.appealEligible == Some(false) {
        return Err(AppealsUnavailable);
      }
      requests := requests[i := current.(appeals := current.appeals + [Appeal(freshAppealId, None)])];
      timeline := timeline + [TimelineEvent(requestId, OtherEvent("appeal_submitted"), None)];
      audit := audit + [AppealEntry(requestId, freshAppealId)];
      r := Ok(freshAppealId);
    }

    method DecideAppeal(requestId: string, appealId: string, verdict: Verdict, explanation: Option<string>)
      returns (r: Result<Verdict, ServiceError>)
      modifies this
      ensures (r, State()) == DecideAppealIn(old(State()), clock, requestId, appealId, verdict, explanation)
    {
      var i := IndexOf(requests, requestId);
      if i == |requests| {
        return Err(MissingRequest);
      }
      var current := requests[i];
      var k := IndexOfAppeal(current.appeals, appealId);
      if k == |current.appeals| {
        return Err(MissingAppeal);
      }
      if current.status == Closed {
        return Err(RequestClosed);
      }
      var nextAppeals := current.appeals[k := current.appeals[k].(verdict := Some(verdict))];
      if verdict == Approve && current.status == Refused {
        var overturned := Transition(OverturnInput(requestId, appealId, explanation));
        if overturned.Err? {
          return Err(overturned.error);
        }
      }
      var j := IndexOf(requests, requestId);
      if j == |requests| {
        return Err(MissingRequest);
      }
      requests := requests[j := requests[j].(appeals := nextAppeals)];
      timeline := timeline + [TimelineEvent(requestId, OtherEvent("appeal_decided"), None)];
      audit := audit + [AppealEntry(requestId, appealId)];
      r := Ok(verdict);
    }
  }

  lemma AppendedKeyIsUsed(timeline: seq<TimelineEvent>, event: TimelineEvent)
    ensures event.idempotencyKey.Some? ==> KeyUsed(timeline + [event], event.requestId, event.idempotencyKey.value)
  {
    FilterConcat(EventOf(event.requestId), timeline, [event]);
    var t := TimelineOf(timeline + [event], event.requestId);
    assert t[|t| - 1] == event;
  }
}
