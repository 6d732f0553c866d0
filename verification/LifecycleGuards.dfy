/**
 * What one call of the lifecycle service does (lifecycle/service.ts, lifecycle/policy.ts, routes/requests.ts), in terms
 * of the stored records: when it goes through, and everything it changes.
 */
module LifecycleGuards {
  import opened Basics
  import opened ClockSegments
  import opened LifecycleRules
  import opened LifecycleService

  /** Request `i` is the one a call with this id works on. */
  ghost predicate At(requests: seq<Request>, id: string, i: nat)
  {
    i < |requests| && requests[i].id == id && forall j :: 0 <= j < i ==> requests[j].id != id
  }

  ghost predicate Missing(requests: seq<Request>, id: string)
  {
    forall j :: 0 <= j < |requests| ==> requests[j].id != id
  }

  /** An event of the request carries the key. */
  ghost predicate Spent(st: Store, id: string, key: Option<string>)
  {
    && key.Some? && key.value != ""
    && exists k :: 0 <= k < |st.timeline| && st.timeline[k].requestId == id && st.timeline[k].idempotencyKey == key
  }

  lemma IndexIsFirst(requests: seq<Request>, id: string, i: nat)
    ensures IndexOf(requests, id) <= |requests|
    ensures At(requests, id, i) <==> i == IndexOf(requests, id) && i < |requests|
    ensures Missing(requests, id) <==> IndexOf(requests, id) == |requests|
  {
  }

  lemma SpentIsUsed(st: Store, id: string, key: Option<string>)
    ensures Spent(st, id, key) <==> Truthy(key) && KeyUsed(st.timeline, id, key.value)
  {
    ViewsAreExact(st.timeline, st.segments, id);
    var events := TimelineOf(st.timeline, id);
    if Spent(st, id, key) {
      var k :| 0 <= k < |st.timeline| && st.timeline[k].requestId == id && st.timeline[k].idempotencyKey == key;
      assert st.timeline[k] in events;
    }
    if Truthy(key) && KeyUsed(st.timeline, id, key.value) {
      var k :| 0 <= k < |events| && events[k].idempotencyKey == key;
      assert events[k] in events;
    }
  }

  // ----- Transitions -----

  /** The stored policy decision does not forbid the action. */
  ghost predicate PolicyAllows(d: Decision, action: Action)
  {
    action == Refuse && d.Decision? ==> d.refusalEligible
  }

  ghost predicate TableAllows(from: Status, action: Action)
  {
    exists to, event :: Edge(from, action, to, event) in DIAGRAM
  }

  lemma TransitionFailsExactly(st: Store, clock: Clock, input: TransitionInput)
    requires !Spent(st, input.requestId, input.key)
    ensures var (r, after) := TransitionIn(st, clock, input);
            && (r.Err? ==> after == st)
            && (r == Err(MissingRequest) <==> Missing(st.requests, input.requestId))
            && forall i: nat :: At(st.requests, input.requestId, i) ==>
                 var current := st.requests[i];
                 && (r == Err(RefusalBlocked) <==> !PolicyAllows(current.decision, input.action))
                 && (r.Ok? <==>
                       && PolicyAllows(current.decision, input.action)
                       && TableAllows(current.status, input.action)
                       && Explained(input.action, input.rationale))
  {
    hide DIAGRAM, Explained, ApplyTransition, Recorded, KeyUsed, TimelineOf;
    IndexIsFirst(st.requests, input.requestId, IndexOf(st.requests, input.requestId));
    SpentIsUsed(st, input.requestId, input.key);
    forall i: nat | At(st.requests, input.requestId, i)
      ensures ApplyTransition(input.action, st.requests[i].status, input.rationale).Ok?
         <==> TableAllows(st.requests[i].status, input.action) && Explained(input.action, input.rationale)
      ensures i == IndexOf(st.requests, input.requestId)
    {
      IndexIsFirst(st.requests, input.requestId, i);
      AppliesExactly(input.action, st.requests[i].status, input.rationale);
    }
  }

  lemma AppliesExactly(a: Action, from: Status, rationale: Option<string>)
    ensures ApplyTransition(a, from, rationale).Ok? <==> TableAllows(from, a) && Explained(a, rationale)
  {
    hide DIAGRAM, Explained, ApplyTransition;
    var r := ApplyTransition(a, from, rationale);
    if r.Ok? { TransitionsFollowDiagram(a, from, rationale, r.value); }
    if TableAllows(from, a) {
      var to, event :| Edge(from, a, to, event) in DIAGRAM;
      EdgesAreTheTables(Edge(from, a, to, event));
      TransitionsFollowDiagram(a, from, rationale, to);
    }
  }

  /** The store after an event has been recorded for request `i`: everything the service writes for it. */
  ghost predicate RecordedFor(st: Store, clock: Clock, i: nat, to: Status, event: TimelineEvent, after: Store)
    requires i < |st.requests|
  {
    var current := st.requests[i];
    var existing := SegmentsOf(st.segments, current.id);
    var computed := clock(current, TimelineOf(st.timeline, current.id) + [event], existing);
    && after.timeline == st.timeline + [event]
    && after.segments == st.segments + Dedupe(computed.segments, Signatures(existing), current.id)
    && after.requests == st.requests[i := current.(status := to, dueAt := computed.finalDueAt)]
    && after.audit == st.audit + [LifecycleEntry(current.id, Some(current.status), to)]
  }

  lemma OwnEventLast(timeline: seq<TimelineEvent>, event: TimelineEvent)
    ensures TimelineOf(timeline + [event], event.requestId) == TimelineOf(timeline, event.requestId) + [event]
  {
    FilterConcat(EventOf(event.requestId), timeline, [event]);
  }

  /** What a transition leaves and answers when it goes through: along one edge of the diagram, and no other call. */
  lemma TransitionFollowsEdge(st: Store, clock: Clock, input: TransitionInput, i: nat)
    returns (to: Status, event: EventType)
    requires At(st.requests, input.requestId, i) && !Spent(st, input.requestId, input.key)
    requires TransitionIn(st, clock, input).0.Ok?
    ensures Edge(st.requests[i].status, input.action, to, event) in DIAGRAM
    ensures var (r, after) := TransitionIn(st, clock, input);
            && RecordedFor(st, clock, i, to, TimelineEvent(input.requestId, event, input.key), after)
            && r == Ok(Summary(input.requestId, to, after.requests[i].dueAt))
  {
    hide DIAGRAM, Explained, ApplyTransition, KeyUsed, TimelineOf, SegmentsOf, Dedupe, Signatures;
    IndexIsFirst(st.requests, input.requestId, i);
    SpentIsUsed(st, input.requestId, input.key);
    var applied := ApplyTransition(input.action, st.requests[i].status, input.rationale);
    to, event := applied.value, ToEventType(input.action);
    TransitionsFollowDiagram(input.action, st.requests[i].status, input.rationale, to);
    OwnEventLast(st.timeline, TimelineEvent(input.requestId, event, input.key));
  }

  /** An edge is fixed by its status and action. */
  lemma EdgesAreUnique(e: Edge, f: Edge)
    requires e in DIAGRAM && f in DIAGRAM && e.from == f.from && e.action == f.action
    ensures e == f
  {
    hide DIAGRAM, Transitions, StatusByAction, ToEventType;
    EdgesAreTheTables(e);
    EdgesAreTheTables(f);
  }

  lemma SpentKeyChangesNothing(st: Store, clock: Clock, input: TransitionInput, i: nat)
    requires At(st.requests, input.requestId, i) && Spent(st, input.requestId, input.key)
    ensures var current := st.requests[i];
            TransitionIn(st, clock, input) == (Ok(Summary(current.id, current.status, current.dueAt)), st)
  {
    hide KeyUsed;
    IndexIsFirst(st.requests, input.requestId, i);
    SpentIsUsed(st, input.requestId, input.key);
  }

  // ----- Captures -----

  /** Request `i` is the first one captured under the key. */
  ghost predicate CapturedUnder(requests: seq<Request>, key: Option<string>, i: nat)
  {
    && key.Some? && key.value != "" && i < |requests| && requests[i].captureKey == key
    && forall j :: 0 <= j < i ==> requests[j].captureKey != key
  }

  lemma KeyIndexIsFirst(requests: seq<Request>, key: Option<string>, i: nat)
    requires Truthy(key)
    ensures CapturedUnder(requests, key, i) <==> i == IndexOfKey(requests, key.value) && i < |requests|
  {
  }

  lemma CaptureAnswers(st: Store, clock: Clock, input: CaptureInput)
    ensures var (r, after) := CaptureIn(st, clock, input);
            && (r.Err? <==> input.receivedAt == None)
            && (r.Err? ==> r == Err(InvalidIntake) && after == st)
            && forall i: nat :: r.Ok? && CapturedUnder(st.requests, input.key, i) ==>
                 r.value == Summary(st.requests[i].id, st.requests[i].status, st.requests[i].dueAt) && after == st
  {
    hide Dedupe, IndexOfKey;
    forall i: nat | CapturedUnder(st.requests, input.key, i) ensures i == IndexOfKey(st.requests, input.key.value) {
      KeyIndexIsFirst(st.requests, input.key, i);
    }
  }

  /** A new request starts captured, with the decision and key given, and is stored with its event and segments. */
  lemma CaptureStoresRequest(st: Store, clock: Clock, input: CaptureInput)
    requires input.receivedAt.Some? && forall i: nat :: !CapturedUnder(st.requests, input.key, i)
    ensures var (r, after) := CaptureIn(st, clock, input);
            var event := TimelineEvent(input.freshId, CaptureEvent, None);
            var computed :=
              clock(Request(input.freshId, Captured, input.key, input.decision, [], input.dueAt), [event], []);
            && r == Ok(Summary(input.freshId, Captured, computed.finalDueAt))
            && after.requests == st.requests
                 + [Request(input.freshId, Captured, input.key, input.decision, [], computed.finalDueAt)]
            && after.timeline == st.timeline + [event]
            && after.audit == st.audit + [LifecycleEntry(input.freshId, None, Captured)]
            && after.segments == st.segments + Dedupe(computed.segments, {}, input.freshId)
  {
    hide Dedupe;
    if Truthy(input.key) { KeyIndexIsFirst(st.requests, input.key, IndexOfKey(st.requests, input.key.value)); }
  }

  // ----- Appeals -----

  /** An appeal can be made unless the decision rules appeals out; it is the request's last one, undecided. */
  lemma SubmittedAppeal(st: Store, requestId: string, freshAppealId: string)
    ensures var (r, after) := SubmitAppealIn(st, requestId, freshAppealId);
            && (r.Err? ==> after == st)
            && (r == Err(MissingRequest) <==> Missing(st.requests, requestId))
            && forall i: nat :: At(st.requests, requestId, i) ==>
                 var current := st.requests[i];
                 && (r == Err(AppealsUnavailable) <==>
                       current.decision.Decision? && current.decision.appealEligible == Some(false))
                 && (r.Ok? <==> r != Err(AppealsUnavailable))
                 && (r.Ok? ==>
                       && r.value == freshAppealId
                       && after.requests
                            == st.requests[i := current.(appeals := current.appeals + [Appeal(freshAppealId, None)])]
                       && after.timeline
                            == st.timeline + [TimelineEvent(requestId, OtherEvent("appeal_submitted"), None)]
                       && after.audit == st.audit + [AppealEntry(requestId, freshAppealId)]
                       && after.segments == st.segments)
  {
    hide IndexOf;
    IndexIsFirst(st.requests, requestId, IndexOf(st.requests, requestId));
    forall i: nat | At(st.requests, requestId, i) ensures i == IndexOf(st.requests, requestId) {
      IndexIsFirst(st.requests, requestId, i);
    }
  }

  /** Appeal `k` is the one a decision with this id is about. */
  ghost predicate AppealAt(appeals: seq<Appeal>, id: string, k: nat)
  {
    k < |appeals| && appeals[k].id == id && forall j :: 0 <= j < k ==> appeals[j].id != id
  }

  ghost predicate NoAppeal(appeals: seq<Appeal>, id: string)
  {
    forall j :: 0 <= j < |appeals| ==> appeals[j].id != id
  }

  lemma AppealIndexIsFirst(appeals: seq<Appeal>, id: string, k: nat)
    ensures IndexOfAppeal(appeals, id) <= |appeals|
    ensures AppealAt(appeals, id, k) <==> k == IndexOfAppeal(appeals, id) && k < |appeals|
    ensures NoAppeal(appeals, id) <==> IndexOfAppeal(appeals, id) == |appeals|
  {
  }

  /** The decision reopens the request: only an approval does, of a refused request, under an unused key. */
  ghost predicate Reopens(st: Store, requestId: string, appealId: string, verdict: Verdict, i: nat)
    requires i < |st.requests|
  {
    && verdict == Approve && st.requests[i].status == Refused
    && !Spent(st, requestId, Some("appeal-overturn:" + requestId + ":" + appealId))
  }

  /** Overturning a refusal always goes through: it records the reopening, or finds its key spent. */
  lemma Overturned(st: Store, clock: Clock, requestId: string, appealId: string, explanation: Option<string>, i: nat)
    requires At(st.requests, requestId, i) && st.requests[i].status == Refused
    ensures var (r, after) := TransitionIn(st, clock, OverturnInput(requestId, appealId, explanation));
            var key := Some("appeal-overturn:" + requestId + ":" + appealId);
            && r.Ok?
            && (Spent(st, requestId, key) ==> after == st)
            && (!Spent(st, requestId, key) ==>
                  RecordedFor(st, clock, i, InProgress, TimelineEvent(requestId, AppealOverturned, key), after))
  {
    hide Explained, TransitionIn, Spent, RecordedFor;
    var input := OverturnInput(requestId, appealId, explanation);
    var key := Some("appeal-overturn:" + requestId + ":" + appealId);
    assert input.key == key && input.action == OverturnOnAppeal;
    var edge := Edge(Refused, OverturnOnAppeal, InProgress, AppealOverturned);
    assert edge in DIAGRAM;
    if Spent(st, requestId, key) {
      SpentKeyChangesNothing(st, clock, input, i);
    } else {
      assert Explained(OverturnOnAppeal, input.rationale) by { OverturnNeedsNoRationale(input.rationale); }
      TransitionFailsExactly(st, clock, input);
      var to, event := TransitionFollowsEdge(st, clock, input, i);
      EdgesAreUnique(edge, Edge(Refused, OverturnOnAppeal, to, event));
    }
  }

  lemma OverturnNeedsNoRationale(rationale: Option<string>)
    ensures Explained(OverturnOnAppeal, rationale)
  {
  }

  /** A decision fails exactly on a missing request, a missing appeal or a closed request, and then changes nothing. */
  lemma DecisionFailsExactly(st: Store, clock: Clock, requestId: string, appealId: string, verdict: Verdict,
                             explanation: Option<string>)
    ensures var (r, after) := DecideAppealIn(st, clock, requestId, appealId, verdict, explanation);
            && (r.Err? ==> after == st)
            && (r.Ok? ==> r.value == verdict)
            && (r == Err(MissingRequest) <==> Missing(st.requests, requestId))
            && forall i: nat :: At(st.requests, requestId, i) ==>
                 && (r == Err(MissingAppeal) <==> NoAppeal(st.requests[i].appeals, appealId))
                 && (r == Err(RequestClosed) <==>
                       !NoAppeal(st.requests[i].appeals, appealId) && st.requests[i].status == Closed)
                 && (r.Ok? <==> !NoAppeal(st.requests[i].appeals, appealId) && st.requests[i].status != Closed)
  {
    hide TransitionIn, OverturnKey, IndexOf, IndexOfAppeal;
    var j := IndexOf(st.requests, requestId);
    IndexIsFirst(st.requests, requestId, j);
    forall i: nat | At(st.requests, requestId, i) ensures i == j {
      IndexIsFirst(st.requests, requestId, i);
    }
    if j < |st.requests| {
      var k := IndexOfAppeal(st.requests[j].appeals, appealId);
      AppealIndexIsFirst(st.requests[j].appeals, appealId, k);
      if k < |st.requests[j].appeals| && st.requests[j].status != Closed {
        DecisionGoesThrough(st, clock, requestId, appealId, verdict, explanation, j, k);
      }
    }
  }

  lemma DecisionGoesThrough(st: Store, clock: Clock, requestId: string, appealId: string, verdict: Verdict,
                            explanation: Option<string>, i: nat, k: nat)
    requires At(st.requests, requestId, i) && AppealAt(st.requests[i].appeals, appealId, k)
    requires st.requests[i].status != Closed
    ensures DecideAppealIn(st, clock, requestId, appealId, verdict, explanation).0 == Ok(verdict)
  {
    hide TransitionIn, OverturnKey, Spent, OverturnInput;
    IndexIsFirst(st.requests, requestId, i);
    AppealIndexIsFirst(st.requests[i].appeals, appealId, k);
    if verdict == Approve && st.requests[i].status == Refused {
      Overturned(st, clock, requestId, appealId, explanation, i);
      var st1 := TransitionIn(st, clock, OverturnInput(requestId, appealId, explanation)).1;
      assert At(st1.requests, requestId, i);
      IndexIsFirst(st1.requests, requestId, i);
    }
  }

  /**
   * What a decision leaves. The named appeal carries the verdict; the status and the due date change, with an event,
   * an audit entry and clock segments of their own, exactly when the decision reopens the request; every other appeal
   * and request is as it was.
   */
  lemma DecisionIsRecorded(st: Store, clock: Clock, requestId: string, appealId: string, verdict: Verdict,
                           explanation: Option<string>, i: nat, k: nat) returns (between: Store)
    requires At(st.requests, requestId, i) && AppealAt(st.requests[i].appeals, appealId, k)
    requires st.requests[i].status != Closed
    ensures !Reopens(st, requestId, appealId, verdict, i) ==> between == st
    ensures Reopens(st, requestId, appealId, verdict, i) ==>
              RecordedFor(st, clock, i, InProgress,
                          TimelineEvent(requestId, AppealOverturned,
                                        Some("appeal-overturn:" + requestId + ":" + appealId)), between)
    ensures var after := DecideAppealIn(st, clock, requestId, appealId, verdict, explanation).1;
            var appeals := st.requests[i].appeals;
            && i < |between.requests|
            && after.requests == between.requests[i := between.requests[i].(
                 appeals := appeals[k := Appeal(appealId, Some(verdict))])]
            && after.timeline == between.timeline + [TimelineEvent(requestId, OtherEvent("appeal_decided"), None)]
            && after.audit == between.audit + [AppealEntry(requestId, appealId)]
            && after.segments == between.segments
  {
    hide TransitionIn, OverturnKey, Spent, OverturnInput, TimelineOf, SegmentsOf, Dedupe, Signatures;
    IndexIsFirst(st.requests, requestId, i);
    AppealIndexIsFirst(st.requests[i].appeals, appealId, k);
    DecisionGoesThrough(st, clock, requestId, appealId, verdict, explanation, i, k);
    between := st;
    if verdict == Approve && st.requests[i].status == Refused {
      Overturned(st, clock, requestId, appealId, explanation, i);
      between := TransitionIn(st, clock, OverturnInput(requestId, appealId, explanation)).1;
      assert At(between.requests, requestId, i);
      IndexIsFirst(between.requests, requestId, i);
    }
  }

  /** So a decision changes a request's status if and only if it reopens it. */
  lemma StatusChangesExactly(st: Store, clock: Clock, requestId: string, appealId: string, verdict: Verdict,
                             explanation: Option<string>, i: nat, j: nat)
    requires At(st.requests, requestId, i) && j < |st.requests|
    requires DecideAppealIn(st, clock, requestId, appealId, verdict, explanation).0.Ok?
    ensures var after := DecideAppealIn(st, clock, requestId, appealId, verdict, explanation).1;
            && |after.requests| == |st.requests|
            && (after.requests[j].status != st.requests[j].status <==>
                  j == i && Reopens(st, requestId, appealId, verdict, i))
            && (j != i ==> after.requests[j] == st.requests[j])
  {
    hide DecideAppealIn, Spent, DIAGRAM;
    DecisionFailsExactly(st, clock, requestId, appealId, verdict, explanation);
    var k := IndexOfAppeal(st.requests[i].appeals, appealId);
    AppealIndexIsFirst(st.requests[i].appeals, appealId, k);
    var between := DecisionIsRecorded(st, clock, requestId, appealId, verdict, explanation, i, k);
  }
}
