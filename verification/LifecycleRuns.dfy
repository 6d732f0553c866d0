/** Whole runs of the lifecycle service: the timeline, the status, the audit entries and the keys stay in step. */
module LifecycleRuns {
  import opened Basics
  import opened ClockSegments
  import opened LifecycleRules
  import opened LifecycleService

  function Types(timeline: seq<TimelineEvent>): seq<EventType>
  {
    Map((e: TimelineEvent) => e.eventType, timeline)
  }

  function EntryOf(requestId: string): AuditEntry -> bool
  {
    (a: AuditEntry) => a.LifecycleEntry? && a.requestId == requestId
  }

  /** The lifecycle entries of the request, in the order they were appended. */
  function EntriesOf(audit: seq<AuditEntry>, requestId: string): seq<AuditEntry>
  {
    Filter(EntryOf(requestId), audit)
  }

  /** The entries start with the capture, and each starts from the status the one before it left. */
  ghost predicate Linked(entries: seq<AuditEntry>)
  {
    && |entries| > 0
    && (forall k :: 0 <= k < |entries| ==> entries[k].LifecycleEntry?)
    && entries[0].before == None && entries[0].after == Captured
    && forall k :: 1 <= k < |entries| ==> entries[k].before == Some(entries[k - 1].after)
  }

  ghost predicate KeysLabelOnce(timeline: seq<TimelineEvent>)
  {
    forall i, j :: 0 <= i < j < |timeline| && Truthy(timeline[i].idempotencyKey) ==>
      timeline[i].idempotencyKey != timeline[j].idempotencyKey
  }

  ghost predicate HasAppeal(appeals: seq<Appeal>, id: string)
  {
    exists k :: 0 <= k < |appeals| && appeals[k].id == id
  }

  /** Every overturn in the timeline was made for one of the request's appeals, under that appeal's key. */
  ghost predicate OverturnsComeFromAppeals(r: Request, timeline: seq<TimelineEvent>)
  {
    forall i :: 0 <= i < |timeline| && timeline[i].eventType == AppealOverturned ==>
      exists k :: 0 <= k < |r.appeals| && timeline[i].idempotencyKey == Some(OverturnKey(r.id, r.appeals[k].id))
  }

  ghost predicate DistinctAppeals(appeals: seq<Appeal>)
  {
    forall i, j :: 0 <= i < j < |appeals| ==> appeals[i].id != appeals[j].id
  }

  /** The policy decision does not let the request be refused. */
  predicate RefusalForbidden(d: Decision)
  {
    d.Decision? && !d.refusalEligible
  }

  ghost predicate NeverRefused(timeline: seq<TimelineEvent>)
  {
    forall i :: 0 <= i < |timeline| ==> timeline[i].eventType != RefusedEvent
  }

  /** All that holds of one request, its timeline, its lifecycle entries and its clock segments. */
  ghost predicate InStep(r: Request, timeline: seq<TimelineEvent>, entries: seq<AuditEntry>, segments: seq<Segment>)
  {
    && Legal(Types(timeline))
    && r.status == Replay(Types(timeline))
    && Linked(entries) && entries[|entries| - 1].after == r.status
    && KeysLabelOnce(timeline)
    && DistinctAppeals(r.appeals) && OverturnsComeFromAppeals(r, timeline)
    && DistinctSignatures(segments)
    && (RefusalForbidden(r.decision) ==> NeverRefused(timeline))
  }

  ghost predicate StoreHolds(st: Store)
  {
    && (forall i, j :: 0 <= i < j < |st.requests| ==> st.requests[i].id != st.requests[j].id)
    && (forall i, j :: 0 <= i < j < |st.requests| && Truthy(st.requests[i].captureKey) ==>
          st.requests[i].captureKey != st.requests[j].captureKey)
    && (forall i :: 0 <= i < |st.requests| ==>
          var r := st.requests[i];
          InStep(r, TimelineOf(st.timeline, r.id), EntriesOf(st.audit, r.id), SegmentsOf(st.segments, r.id)))
  }

  // ----- One request -----

  lemma TypesAppend(timeline: seq<TimelineEvent>, e: TimelineEvent)
    ensures Types(timeline + [e]) == Types(timeline) + [e.eventType]
  {
  }

  lemma LegalExtends(types: seq<EventType>, t: EventType)
    requires Legal(types) && MayFollow(Replay(types), t)
    ensures Legal(types + [t])
    ensures Replay(types + [t]) == ReplayOne(Replay(types), t)
  {
    hide MayFollow;
    var all := types + [t];
    forall k | 1 <= k < |all| ensures MayFollow(Replay(all[..k]), all[k]) {
      assert all[..k] == types[..k];
      if k == |types| { assert types[..k] == types; }
    }
  }

  lemma NewRequestInStep(id: string, key: Option<string>, decision: Decision, dueAt: int, computed: seq<Segment>)
    ensures InStep(Request(id, Captured, key, decision, [], dueAt), [TimelineEvent(id, CaptureEvent, None)],
                   [LifecycleEntry(id, None, Captured)], Dedupe(computed, {}, id))
  {
    var t := [TimelineEvent(id, CaptureEvent, None)];
    assert Types(t) == [CaptureEvent];
    assert [CaptureEvent][..0] == [];
    DedupeIsExact(computed, {}, id);
  }

  lemma TransitionStaysInStep(
      r: Request, timeline: seq<TimelineEvent>, entries: seq<AuditEntry>, segments: seq<Segment>,
      action: Action, rationale: Option<string>, key: Option<string>, dueAt: int, computed: seq<Segment>)
    requires InStep(r, timeline, entries, segments)
    requires ApplyTransition(action, r.status, rationale).Ok?
    requires Truthy(key) ==> forall i :: 0 <= i < |timeline| ==> timeline[i].idempotencyKey != key
    requires action == Refuse ==> !RefusalForbidden(r.decision)
    requires action == OverturnOnAppeal ==>
               exists k :: 0 <= k < |r.appeals| && key == Some(OverturnKey(r.id, r.appeals[k].id))
    ensures var to := ApplyTransition(action, r.status, rationale).value;
            InStep(r.(status := to, dueAt := dueAt), timeline + [TimelineEvent(r.id, ToEventType(action), key)],
                   entries + [LifecycleEntry(r.id, Some(r.status), to)],
                   segments + Dedupe(computed, Signatures(segments), r.id))
  {
    hide MayFollow, Legal, Replay, OverturnKey;
    var e := TimelineEvent(r.id, ToEventType(action), key);
    TypesAppend(timeline, e);
    TransitionReplays(action, r.status, rationale);
    LegalExtends(Types(timeline), e.eventType);
    SegmentsStayDistinct(segments, computed, r.id);
    assert KeysLabelOnce(timeline + [e]);
    assert ToEventType(action) == AppealOverturned ==> action == OverturnOnAppeal;
    assert ToEventType(action) == RefusedEvent ==> action == Refuse;
    assert OverturnsComeFromAppeals(r.(status := ApplyTransition(action, r.status, rationale).value, dueAt := dueAt),
                                    timeline + [e]);
  }

  lemma SegmentsStayDistinct(segments: seq<Segment>, computed: seq<Segment>, id: string)
    requires DistinctSignatures(segments)
    ensures DistinctSignatures(segments + Dedupe(computed, Signatures(segments), id))
  {
    hide Signature;
    var pending := Dedupe(computed, Signatures(segments), id);
    DedupeIsExact(computed, Signatures(segments), id);
    assert forall i :: 0 <= i < |segments| ==> Signature(segments[i]) in Signatures(segments);
    assert forall i :: 0 <= i < |pending| ==> Signature(pending[i]) in Signatures(pending);
  }

  lemma OtherEventStaysInStep(
      r: Request, timeline: seq<TimelineEvent>, entries: seq<AuditEntry>, segments: seq<Segment>,
      name: string, appeals: seq<Appeal>)
    requires InStep(r, timeline, entries, segments)
    requires DistinctAppeals(appeals) && |r.appeals| <= |appeals|
    requires forall k :: 0 <= k < |r.appeals| ==> appeals[k].id == r.appeals[k].id
    ensures InStep(r.(appeals := appeals), timeline + [TimelineEvent(r.id, OtherEvent(name), None)], entries, segments)
  {
    hide Legal, Replay, OverturnKey;
    var e := TimelineEvent(r.id, OtherEvent(name), None);
    TypesAppend(timeline, e);
    LegalExtends(Types(timeline), e.eventType);
    forall i | 0 <= i < |timeline| + 1 && (timeline + [e])[i].eventType == AppealOverturned
      ensures exists k ::
                0 <= k < |appeals| && (timeline + [e])[i].idempotencyKey == Some(OverturnKey(r.id, appeals[k].id))
    {
      var k :| 0 <= k < |r.appeals| && timeline[i].idempotencyKey == Some(OverturnKey(r.id, r.appeals[k].id));
      assert appeals[k].id == r.appeals[k].id;
    }
  }

  // ----- The whole store -----

  /** An update of one request that appends records of that request only. */
  ghost predicate Touches(st: Store, after: Store, i: nat, events: seq<TimelineEvent>, audits: seq<AuditEntry>,
                          segments: seq<Segment>)
  {
    && i < |st.requests| == |after.requests|
    && after.requests == st.requests[i := after.requests[i]]
    && after.requests[i].id == st.requests[i].id && after.requests[i].captureKey == st.requests[i].captureKey
    && after.timeline == st.timeline + events && after.audit == st.audit + audits
    && after.segments == st.segments + segments
    && (forall e :: e in events ==> e.requestId == st.requests[i].id)
    && (forall a :: a in audits ==> a.requestId == st.requests[i].id)
    && (forall s :: s in segments ==> s.requestId == st.requests[i].id)
  }

  lemma ViewsAfter(st: Store, events: seq<TimelineEvent>, audits: seq<AuditEntry>, segments: seq<Segment>,
                   owner: string, id: string)
    requires forall e :: e in events ==> e.requestId == owner
    requires forall a :: a in audits ==> a.requestId == owner
    requires forall s :: s in segments ==> s.requestId == owner
    ensures TimelineOf(st.timeline + events, id) == TimelineOf(st.timeline, id) + if id == owner then events else []
    ensures EntriesOf(st.audit + audits, id)
         == EntriesOf(st.audit, id) + if id == owner then EntriesOf(audits, id) else []
    ensures SegmentsOf(st.segments + segments, id) == SegmentsOf(st.segments, id) + if id == owner then segments else []
  {
    FilterConcat(EventOf(id), st.timeline, events);
    FilterConcat(EntryOf(id), st.audit, audits);
    FilterConcat(SegmentOf(id), st.segments, segments);
    if id == owner {
      FilterAll(EventOf(id), events);
      FilterAll(SegmentOf(id), segments);
    } else {
      FilterNone(EventOf(id), events);
      FilterNone(EntryOf(id), audits);
      FilterNone(SegmentOf(id), segments);
    }
  }

  lemma TouchKeepsStore(st: Store, after: Store, i: nat, events: seq<TimelineEvent>, audits: seq<AuditEntry>,
                        segments: seq<Segment>)
    requires StoreHolds(st) && Touches(st, after, i, events, audits, segments)
    requires var id := st.requests[i].id;
             InStep(after.requests[i], TimelineOf(st.timeline, id) + events,
                    EntriesOf(st.audit, id) + EntriesOf(audits, id), SegmentsOf(st.segments, id) + segments)
    ensures StoreHolds(after)
  {
    hide InStep, TimelineOf, EntriesOf, SegmentsOf;
    forall j | 0 <= j < |after.requests|
      ensures var r := after.requests[j];
              InStep(r, TimelineOf(after.timeline, r.id), EntriesOf(after.audit, r.id),
                     SegmentsOf(after.segments, r.id))
    {
      var r := after.requests[j];
      ViewsAfter(st, events, audits, segments, st.requests[i].id, r.id);
      if j != i {
        assert r == st.requests[j] && r.id != st.requests[i].id;
        assert TimelineOf(st.timeline, r.id) + [] == TimelineOf(st.timeline, r.id);
        assert EntriesOf(st.audit, r.id) + [] == EntriesOf(st.audit, r.id);
        assert SegmentsOf(st.segments, r.id) + [] == SegmentsOf(st.segments, r.id);
      }
    }
  }

  lemma OneEntry(id: string, before: Option<Status>, to: Status)
    ensures EntriesOf([LifecycleEntry(id, before, to)], id) == [LifecycleEntry(id, before, to)]
  {
    FilterAll(EntryOf(id), [LifecycleEntry(id, before, to)]);
  }

  lemma NoEntry(id: string, appealId: string)
    ensures EntriesOf([AppealEntry(id, appealId)], id) == []
  {
    FilterNone(EntryOf(id), [AppealEntry(id, appealId)]);
  }

  /** A transition changes nothing, or touches its request and keeps it in step. */
  lemma TransitionKeepsStore(st: Store, clock: Clock, input: TransitionInput)
    requires StoreHolds(st)
    requires var i := IndexOf(st.requests, input.requestId);
             input.action == OverturnOnAppeal && i < |st.requests| ==>
               exists k :: 0 <= k < |st.requests[i].appeals|
                        && input.key == Some(OverturnKey(input.requestId, st.requests[i].appeals[k].id))
    ensures StoreHolds(TransitionIn(st, clock, input).1)
  {
    hide InStep, OverturnKey;
    var (result, after) := TransitionIn(st, clock, input);
    if after != st {
      var i := IndexOf(st.requests, input.requestId);
      var r := st.requests[i];
      var event := TimelineEvent(r.id, ToEventType(input.action), input.key);
      var t, es, ss := TimelineOf(st.timeline, r.id), EntriesOf(st.audit, r.id), SegmentsOf(st.segments, r.id);
      var computed := clock(r, TimelineOf(st.timeline + [event], r.id), ss);
      var to := ApplyTransition(input.action, r.status, input.rationale).value;
      var entry := LifecycleEntry(r.id, Some(r.status), to);
      var pending := Dedupe(computed.segments, Signatures(ss), r.id);
      assert Truthy(input.key) ==> forall k :: 0 <= k < |t| ==> t[k].idempotencyKey != input.key;
      TransitionStaysInStep(r, t, es, ss, input.action, input.rationale, input.key, computed.finalDueAt,
                            computed.segments);
      OneEntry(r.id, Some(r.status), to);
      DedupeIsExact(computed.segments, Signatures(ss), r.id);
      TouchKeepsStore(st, after, i, [event], [entry], pending);
    }
  }

  /** An appeal event with unchanged or extended appeals touches its request and keeps it in step. */
  lemma AppealEventKeepsStore(st: Store, i: nat, name: string, appealId: string, appeals: seq<Appeal>)
    requires StoreHolds(st) && i < |st.requests|
    requires DistinctAppeals(appeals) && |st.requests[i].appeals| <= |appeals|
    requires forall k :: 0 <= k < |st.requests[i].appeals| ==> appeals[k].id == st.requests[i].appeals[k].id
    ensures var r := st.requests[i];
            StoreHolds(st.(requests := st.requests[i := r.(appeals := appeals)],
                           timeline := st.timeline + [TimelineEvent(r.id, OtherEvent(name), None)],
                           audit := st.audit + [AppealEntry(r.id, appealId)]))
  {
    hide InStep;
    var r := st.requests[i];
    var event := TimelineEvent(r.id, OtherEvent(name), None);
    var after := st.(requests := st.requests[i := r.(appeals := appeals)], timeline := st.timeline + [event],
                     audit := st.audit + [AppealEntry(r.id, appealId)]);
    var t, es, ss := TimelineOf(st.timeline, r.id), EntriesOf(st.audit, r.id), SegmentsOf(st.segments, r.id);
    OtherEventStaysInStep(r, t, es, ss, name, appeals);
    NoEntry(r.id, appealId);
    assert es + [] == es && ss + [] == ss && st.segments + [] == st.segments;
    TouchKeepsStore(st, after, i, [event], [AppealEntry(r.id, appealId)], []);
  }

  /** Nothing in the store mentions the id. */
  ghost predicate Unused(st: Store, id: string)
  {
    && (forall i :: 0 <= i < |st.requests| ==> st.requests[i].id != id)
    && TimelineOf(st.timeline, id) == [] && EntriesOf(st.audit, id) == [] && SegmentsOf(st.segments, id) == []
  }

  lemma CaptureKeepsStore(st: Store, clock: Clock, input: CaptureInput)
    requires StoreHolds(st) && Unused(st, input.freshId)
    ensures StoreHolds(CaptureIn(st, clock, input).1)
  {
    hide InStep, TimelineOf, EntriesOf, SegmentsOf, Signatures;
    var after := CaptureIn(st, clock, input).1;
    if after != st {
      var id := input.freshId;
      var event, entry := TimelineEvent(id, CaptureEvent, None), LifecycleEntry(id, None, Captured);
      var computed := clock(Request(id, Captured, input.key, input.decision, [], input.dueAt), [event], []);
      var pending := Dedupe(computed.segments, {}, id);
      DedupeIsExact(computed.segments, {}, id);
      NewRequestInStep(id, input.key, input.decision, computed.finalDueAt, computed.segments);
      OneEntry(id, None, Captured);
      forall j | 0 <= j < |after.requests|
        ensures var r := after.requests[j];
                InStep(r, TimelineOf(after.timeline, r.id), EntriesOf(after.audit, r.id),
                       SegmentsOf(after.segments, r.id))
      {
        var r := after.requests[j];
        ViewsAfter(st, [event], [entry], pending, id, r.id);
        assert TimelineOf(st.timeline, r.id) + [] == TimelineOf(st.timeline, r.id);
        assert EntriesOf(st.audit, r.id) + [] == EntriesOf(st.audit, r.id);
        assert SegmentsOf(st.segments, r.id) + [] == SegmentsOf(st.segments, r.id);
        assert [] + [event] == [event] && [] + [entry] == [entry] && [] + pending == pending;
      }
    }
  }

  lemma SubmitKeepsStore(st: Store, requestId: string, freshAppealId: string)
    requires StoreHolds(st)
    requires var i := IndexOf(st.requests, requestId);
             i < |st.requests| ==> !HasAppeal(st.requests[i].appeals, freshAppealId)
    ensures StoreHolds(SubmitAppealIn(st, requestId, freshAppealId).1)
  {
    var i := IndexOf(st.requests, requestId);
    if i < |st.requests| {
      AppealEventKeepsStore(st, i, "appeal_submitted", freshAppealId,
                            st.requests[i].appeals + [Appeal(freshAppealId, None)]);
    }
  }

  lemma DecideKeepsStore(st: Store, clock: Clock, requestId: string, appealId: string, verdict: Verdict,
                         explanation: Option<string>)
    requires StoreHolds(st)
    ensures StoreHolds(DecideAppealIn(st, clock, requestId, appealId, verdict, explanation).1)
  {
    hide InStep, OverturnKey;
    var i := IndexOf(st.requests, requestId);
    if i < |st.requests| {
      var current := st.requests[i];
      var k := IndexOfAppeal(current.appeals, appealId);
      if k < |current.appeals| && current.status != Closed {
        var st1 := st;
        if verdict == Approve && current.status == Refused {
          TransitionKeepsStore(st, clock, OverturnInput(requestId, appealId, explanation));
          TransitionKeepsPlaces(st, clock, OverturnInput(requestId, appealId, explanation));
          st1 := TransitionIn(st, clock, OverturnInput(requestId, appealId, explanation)).1;
        }
        DistinctIndex(st1, i);
        AppealsStayDistinct(st, i);
        var next := current.appeals[k := current.appeals[k].(verdict := Some(verdict))];
        AppealEventKeepsStore(st1, i, "appeal_decided", appealId, next);
      }
    }
  }

  /** A transition leaves every request in its place, with its appeals. */
  lemma TransitionKeepsPlaces(st: Store, clock: Clock, input: TransitionInput)
    ensures var after := TransitionIn(st, clock, input).1;
            && |after.requests| == |st.requests|
            && forall j :: 0 <= j < |st.requests| ==>
                 after.requests[j].id == st.requests[j].id && after.requests[j].appeals == st.requests[j].appeals
  {
  }

  lemma DistinctIndex(st: Store, i: nat)
    requires i < |st.requests|
    requires forall m, n :: 0 <= m < n < |st.requests| ==> st.requests[m].id != st.requests[n].id
    ensures IndexOf(st.requests, st.requests[i].id) == i
  {
  }

  lemma AppealsStayDistinct(st: Store, i: nat)
    requires StoreHolds(st) && i < |st.requests|
    ensures DistinctAppeals(st.requests[i].appeals)
  {
  }

  /** What the other routes do to the timeline: one more event, without an idempotency key, that is no transition. */
  function RecordOtherIn(st: Store, requestId: string, name: string): Store
  {
    if IndexOf(st.requests, requestId) == |st.requests| then st
    else st.(timeline := st.timeline + [TimelineEvent(requestId, OtherEvent(name), None)])
  }

  lemma RecordOtherKeepsStore(st: Store, requestId: string, name: string)
    requires StoreHolds(st)
    ensures StoreHolds(RecordOtherIn(st, requestId, name))
  {
    hide InStep;
    var i := IndexOf(st.requests, requestId);
    if i < |st.requests| {
      var r, event := st.requests[i], TimelineEvent(requestId, OtherEvent(name), None);
      var t, es, ss := TimelineOf(st.timeline, r.id), EntriesOf(st.audit, r.id), SegmentsOf(st.segments, r.id);
      AppealsStayDistinct(st, i);
      OtherEventStaysInStep(r, t, es, ss, name, r.appeals);
      assert r.(appeals := r.appeals) == r && EntriesOf([], r.id) == [];
      assert es + [] == es && ss + [] == ss && st.segments + [] == st.segments && st.audit + [] == st.audit;
      TouchKeepsStore(st, RecordOtherIn(st, requestId, name), i, [event], [], []);
    }
  }

  // ----- Runs -----

  datatype Step =
    | CaptureRequest(capture: CaptureInput)
    | TransitionRequest(transition: TransitionInput)
    | SubmitAppeal(requestId: string, freshAppealId: string)
    | DecideAppeal(decidedRequestId: string, appealId: string, verdict: Verdict, explanation: Option<string>)
    | RecordOther(recordedRequestId: string, name: string)

  /** Generated ids are fresh; a refusal is overturned only by deciding an appeal, as no other route offers it. */
  ghost predicate Enabled(st: Store, step: Step)
  {
    match step
    case CaptureRequest(input) => Unused(st, input.freshId)
    case TransitionRequest(input) => input.action != OverturnOnAppeal
    case SubmitAppeal(requestId, freshAppealId) =>
      var i := IndexOf(st.requests, requestId);
      i < |st.requests| ==> !HasAppeal(st.requests[i].appeals, freshAppealId)
    case DecideAppeal(_, _, _, _) => true
    case RecordOther(_, _) => true
  }

  function Apply(st: Store, clock: Clock, step: Step): Store
  {
    match step
    case CaptureRequest(input) => CaptureIn(st, clock, input).1
    case TransitionRequest(input) => TransitionIn(st, clock, input).1
    case SubmitAppeal(requestId, freshAppealId) => SubmitAppealIn(st, requestId, freshAppealId).1
    case DecideAppeal(requestId, appealId, verdict, explanation) =>
      DecideAppealIn(st, clock, requestId, appealId, verdict, explanation).1
    case RecordOther(requestId, name) => RecordOtherIn(st, requestId, name)
  }

  function Run(st: Store, clock: Clock, steps: seq<Step>): Store
    decreases |steps|
  {
    if steps == [] then st else Run(Apply(st, clock, steps[0]), clock, steps[1..])
  }

  ghost predicate Possible(st: Store, clock: Clock, steps: seq<Step>)
    decreases |steps|
  {
    steps != [] ==> Enabled(st, steps[0]) && Possible(Apply(st, clock, steps[0]), clock, steps[1..])
  }

  const EMPTY_STORE := Store([], [], [], [])

  lemma {:induction false} RunKeepsStore(st: Store, clock: Clock, steps: seq<Step>)
    requires StoreHolds(st) && Possible(st, clock, steps)
    ensures StoreHolds(Run(st, clock, steps))
    decreases |steps|
  {
    hide StoreHolds, CaptureIn, TransitionIn, SubmitAppealIn, DecideAppealIn, RecordOtherIn;
    if steps != [] {
      match steps[0] {
        case CaptureRequest(input) => CaptureKeepsStore(st, clock, input);
        case TransitionRequest(input) => TransitionKeepsStore(st, clock, input);
        case SubmitAppeal(requestId, freshAppealId) => SubmitKeepsStore(st, requestId, freshAppealId);
        case DecideAppeal(requestId, appealId, verdict, explanation) =>
          DecideKeepsStore(st, clock, requestId, appealId, verdict, explanation);
        case RecordOther(requestId, name) => RecordOtherKeepsStore(st, requestId, name);
      }
      RunKeepsStore(Apply(st, clock, steps[0]), clock, steps[1..]);
    }
  }

  /**
   * Event sourcing: in every run, whatever the clock computes, each request's stored status is the replay of its
   * timeline's event types, and its lifecycle audit entries link status to status from the capture to now.
   */
  lemma StatusIsReplay(clock: Clock, steps: seq<Step>, i: nat)
    requires Possible(EMPTY_STORE, clock, steps) && i < |Run(EMPTY_STORE, clock, steps).requests|
    ensures var st := Run(EMPTY_STORE, clock, steps);
            var r := st.requests[i];
            var types, entries := Types(TimelineOf(st.timeline, r.id)), EntriesOf(st.audit, r.id);
            && r.status == Replay(types) && Legal(types)
            && Linked(entries) && entries[|entries| - 1].after == r.status
  {
    RunKeepsStore(EMPTY_STORE, clock, steps);
  }

  /** The policy guard, over whole runs: a request whose decision forbids a refusal is never refused. */
  lemma IneligibleIsNeverRefused(clock: Clock, steps: seq<Step>, i: nat, k: nat)
    requires Possible(EMPTY_STORE, clock, steps) && i < |Run(EMPTY_STORE, clock, steps).requests|
    requires Run(EMPTY_STORE, clock, steps).requests[i].decision.Decision?
    requires !Run(EMPTY_STORE, clock, steps).requests[i].decision.refusalEligible
    requires k < |Run(EMPTY_STORE, clock, steps).timeline|
    ensures var st := Run(EMPTY_STORE, clock, steps);
            && st.requests[i].status != Refused
            && (st.timeline[k].requestId == st.requests[i].id ==> st.timeline[k].eventType != RefusedEvent)
  {
    RunKeepsStore(EMPTY_STORE, clock, steps);
    var st := Run(EMPTY_STORE, clock, steps);
    var r := st.requests[i];
    var timeline := TimelineOf(st.timeline, r.id);
    NeverRefusedStatus(timeline);
    FilterMembers(EventOf(r.id), st.timeline);
    assert st.timeline[k] in st.timeline;
  }

  lemma {:induction false} NeverRefusedStatus(timeline: seq<TimelineEvent>)
    requires NeverRefused(timeline)
    ensures Replay(Types(timeline)) != Refused
  {
    if timeline != [] {
      var n := |timeline| - 1;
      NeverRefusedStatus(timeline[..n]);
      assert Types(timeline)[..n] == Types(timeline[..n]);
    }
  }

  /** A non-empty key labels at most one event of a request's timeline, and at most one captured request. */
  lemma KeysAreUsedOnce(clock: Clock, steps: seq<Step>, i: nat)
    requires Possible(EMPTY_STORE, clock, steps) && i < |Run(EMPTY_STORE, clock, steps).requests|
    ensures var st := Run(EMPTY_STORE, clock, steps);
            && KeysLabelOnce(TimelineOf(st.timeline, st.requests[i].id))
            && forall j :: 0 <= j < |st.requests| && j != i && Truthy(st.requests[i].captureKey) ==>
                 st.requests[j].captureKey != st.requests[i].captureKey
  {
    RunKeepsStore(EMPTY_STORE, clock, steps);
  }

  /** No request stores two clock segments with one signature. */
  lemma SegmentsAreStoredOnce(clock: Clock, steps: seq<Step>, i: nat)
    requires Possible(EMPTY_STORE, clock, steps) && i < |Run(EMPTY_STORE, clock, steps).requests|
    ensures var st := Run(EMPTY_STORE, clock, steps);
            DistinctSignatures(SegmentsOf(st.segments, st.requests[i].id))
  {
    RunKeepsStore(EMPTY_STORE, clock, steps);
  }

  // ----- Counting -----

  function OverturnKeys(timeline: seq<TimelineEvent>): seq<string>
  {
    if timeline == [] then []
    else
      var e := timeline[|timeline| - 1];
      OverturnKeys(timeline[..|timeline| - 1])
        + if e.eventType == AppealOverturned && e.idempotencyKey.Some? then [e.idempotencyKey.value] else []
  }

  lemma {:induction false} OverturnKeysCount(timeline: seq<TimelineEvent>)
    requires forall i :: 0 <= i < |timeline| && timeline[i].eventType == AppealOverturned ==>
               timeline[i].idempotencyKey.Some?
    ensures |OverturnKeys(timeline)| == Count(Types(timeline), AppealOverturned)
    ensures forall x :: x in OverturnKeys(timeline) ==>
              exists i :: 0 <= i < |timeline| && timeline[i].eventType == AppealOverturned
                          && timeline[i].idempotencyKey == Some(x)
  {
    if timeline != [] {
      var rest := timeline[..|timeline| - 1];
      OverturnKeysCount(rest);
      assert Types(timeline)[..|timeline| - 1] == Types(rest);
    }
  }

  lemma {:induction false} OverturnKeysDistinct(timeline: seq<TimelineEvent>)
    requires KeysLabelOnce(timeline)
    requires forall i :: 0 <= i < |timeline| && timeline[i].eventType == AppealOverturned ==>
               Truthy(timeline[i].idempotencyKey)
    ensures Distinct(OverturnKeys(timeline))
  {
    if timeline != [] {
      var rest := timeline[..|timeline| - 1];
      OverturnKeysDistinct(rest);
      OverturnKeysCount(rest);
      var keys := OverturnKeys(rest);
      forall j | 0 <= j < |keys| ensures timeline[|timeline| - 1].idempotencyKey != Some(keys[j]) {
        assert keys[j] in keys;
      }
    }
  }

  ghost predicate IsFirstTransition(types: seq<EventType>, k: int)
  {
    1 <= k < |types| && !types[k].OtherEvent? && forall j :: 1 <= j < k ==> types[j].OtherEvent?
  }

  /**
   * Run-counting: in every run a request starts with a verification request, is fulfilled and closed at most once,
   * sees no transition after the close, is refused at most once more often than overturned, and is overturned at
   * most once per appeal.
   */
  lemma CountsInEveryRun(clock: Clock, steps: seq<Step>, i: nat)
    requires Possible(EMPTY_STORE, clock, steps) && i < |Run(EMPTY_STORE, clock, steps).requests|
    ensures var st := Run(EMPTY_STORE, clock, steps);
            var r := st.requests[i];
            var types := Types(TimelineOf(st.timeline, r.id));
            && Count(types, FulfilledEvent) <= 1
            && Count(types, ClosedEvent) <= 1
            && Count(types, RefusedEvent) <= Count(types, AppealOverturned) + 1
            && DistinctAppeals(r.appeals) && Count(types, AppealOverturned) <= |r.appeals|
            && (forall m, k :: 0 <= m < k < |types| && types[m] == ClosedEvent ==> types[k].OtherEvent?)
            && (forall k :: IsFirstTransition(types, k) ==> types[k] == VerificationRequested)
  {
    RunKeepsStore(EMPTY_STORE, clock, steps);
    var st := Run(EMPTY_STORE, clock, steps);
    var r := st.requests[i];
    var timeline := TimelineOf(st.timeline, r.id);
    var types := Types(timeline);
    CountingBounds(types);
    OverturnsBoundedByAppeals(r, timeline);
    forall m, k | 0 <= m < k < |types| && types[m] == ClosedEvent ensures types[k].OtherEvent? {
      NothingAfterClose(types, m, k);
    }
    forall k | IsFirstTransition(types, k) ensures types[k] == VerificationRequested {
      FirstTransitionIsVerification(types, k);
    }
  }

  lemma OverturnsBoundedByAppeals(r: Request, timeline: seq<TimelineEvent>)
    requires KeysLabelOnce(timeline) && OverturnsComeFromAppeals(r, timeline)
    ensures Count(Types(timeline), AppealOverturned) <= |r.appeals|
  {
    var allowed := Map((a: Appeal) => OverturnKey(r.id, a.id), r.appeals);
    var keys := OverturnKeys(timeline);
    OverturnKeysCount(timeline);
    OverturnKeysDistinct(timeline);
    forall j | 0 <= j < |keys| ensures keys[j] in allowed {
      assert keys[j] in keys;
      var m :| 0 <= m < |timeline| && timeline[m].eventType == AppealOverturned
               && timeline[m].idempotencyKey == Some(keys[j]);
      var k :| 0 <= k < |r.appeals| && timeline[m].idempotencyKey == Some(OverturnKey(r.id, r.appeals[k].id));
      assert allowed[k] == keys[j];
    }
    DistinctFits(keys, allowed);
  }
}
