/**
 * Repeated calls in the lifecycle (lifecycle/service.ts, routes/requests.ts): what a used idempotency key and a
 * repeated approval do, whatever happened in between.
 */
module LifecycleRepeats {
  import opened Basics
  import opened ClockSegments
  import opened LifecycleRules
  import opened LifecycleRuns
  import opened LifecycleService
  import Text

  // ----- Runs only add -----

  /** Events are only appended, and requests stay in their places, with the policy decision they were captured with. */
  ghost predicate Grows(st: Store, later: Store)
  {
    && st.timeline <= later.timeline
    && |st.requests| <= |later.requests|
    && forall j :: 0 <= j < |st.requests| ==>
         && later.requests[j].id == st.requests[j].id && later.requests[j].captureKey == st.requests[j].captureKey
         && later.requests[j].decision == st.requests[j].decision
  }

  lemma StepGrows(st: Store, clock: Clock, step: Step)
    ensures Grows(st, Apply(st, clock, step))
  {
    hide CaptureIn, TransitionIn, SubmitAppealIn, DecideAppealIn, RecordOtherIn, Grows;
    match step
    case CaptureRequest(input) => CaptureGrows(st, clock, input);
    case TransitionRequest(input) => TransitionGrows(st, clock, input);
    case SubmitAppeal(requestId, freshAppealId) => SubmitGrows(st, requestId, freshAppealId);
    case DecideAppeal(requestId, appealId, verdict, explanation) =>
      DecideGrows(st, clock, requestId, appealId, verdict, explanation);
    case RecordOther(requestId, name) => RecordGrows(st, requestId, name);
  }

  lemma RecordGrows(st: Store, requestId: string, name: string)
    ensures Grows(st, RecordOtherIn(st, requestId, name))
  {
  }

  lemma CaptureGrows(st: Store, clock: Clock, input: CaptureInput)
    ensures Grows(st, CaptureIn(st, clock, input).1)
  {
    hide Dedupe;
  }

  lemma TransitionGrows(st: Store, clock: Clock, input: TransitionInput)
    ensures Grows(st, TransitionIn(st, clock, input).1)
  {
    hide Dedupe, SegmentsOf, TimelineOf, KeyUsed, ApplyTransition;
  }

  lemma SubmitGrows(st: Store, requestId: string, freshAppealId: string)
    ensures Grows(st, SubmitAppealIn(st, requestId, freshAppealId).1)
  {
  }

  lemma DecideGrows(st: Store, clock: Clock, requestId: string, appealId: string, verdict: Verdict,
                    explanation: Option<string>)
    ensures Grows(st, DecideAppealIn(st, clock, requestId, appealId, verdict, explanation).1)
  {
    hide TransitionIn, OverturnKey;
    TransitionGrows(st, clock, OverturnInput(requestId, appealId, explanation));
  }

  lemma {:induction false} RunGrows(st: Store, clock: Clock, steps: seq<Step>)
    ensures Grows(st, Run(st, clock, steps))
    decreases |steps|
  {
    hide Apply;
    if steps != [] {
      StepGrows(st, clock, steps[0]);
      RunGrows(Apply(st, clock, steps[0]), clock, steps[1..]);
    }
  }

  lemma KeyStaysUsed(timeline: seq<TimelineEvent>, later: seq<TimelineEvent>, requestId: string, key: string)
    requires timeline <= later && KeyUsed(timeline, requestId, key)
    ensures KeyUsed(later, requestId, key)
  {
    var events := TimelineOf(timeline, requestId);
    var i :| 0 <= i < |events| && events[i].idempotencyKey == Some(key);
    assert later == timeline + later[|timeline|..];
    FilterConcat(EventOf(requestId), timeline, later[|timeline|..]);
    assert TimelineOf(later, requestId)[i] == events[i];
  }

  // ----- Idempotency keys -----

  /**
   * Once a transition under a key has succeeded, the key is spent: after any further steps, a call with it, for
   * whatever action, leaves all state unchanged and is answered with the request as it is by then.
   */
  lemma RepeatedKeyChangesNothing(st: Store, clock: Clock, first: TransitionInput, steps: seq<Step>,
                                  again: TransitionInput)
    requires TransitionIn(st, clock, first).0.Ok? && Truthy(first.key)
    requires again.requestId == first.requestId && again.key == first.key
    ensures var later := Run(TransitionIn(st, clock, first).1, clock, steps);
            var i := IndexOf(later.requests, first.requestId);
            i < |later.requests| && TransitionIn(later, clock, again) == (Ok(SummaryOf(later.requests[i])), later)
  {
    hide Run, Dedupe, SegmentsOf, ApplyTransition;
    var after := TransitionIn(st, clock, first).1;
    var later := Run(after, clock, steps);
    if after != st {
      AppendedKeyIsUsed(st.timeline, TimelineEvent(first.requestId, ToEventType(first.action), first.key));
    }
    assert KeyUsed(after.timeline, first.requestId, first.key.value);
    TransitionKeepsPlaces(st, clock, first);
    RunGrows(after, clock, steps);
    KeyStaysUsed(after.timeline, later.timeline, first.requestId, first.key.value);
    var i := IndexOf(st.requests, first.requestId);
    assert later.requests[i].id == first.requestId;
  }

  /**
   * The same for captures: once a capture under a key has succeeded, after any further steps a capture with that key
   * changes nothing and is answered with the request captured first, as it is by then.
   */
  lemma RepeatedCaptureChangesNothing(st: Store, clock: Clock, first: CaptureInput, steps: seq<Step>,
                                      again: CaptureInput)
    requires CaptureIn(st, clock, first).0.Ok? && Truthy(first.key)
    requires again.key == first.key && again.receivedAt.Some?
    ensures var (answer, after) := CaptureIn(st, clock, first);
            var later, i := Run(after, clock, steps), IndexOfKey(after.requests, first.key.value);
            && i < |after.requests| <= |later.requests|
            && later.requests[i].id == after.requests[i].id == answer.value.id
            && CaptureIn(later, clock, again) == (Ok(SummaryOf(later.requests[i])), later)
  {
    hide Run, Dedupe;
    var (answer, after) := CaptureIn(st, clock, first);
    var later, k := Run(after, clock, steps), first.key.value;
    if IndexOfKey(st.requests, k) == |st.requests| {
      assert after.requests[|st.requests|].captureKey == Some(k);
      assert forall j :: 0 <= j < |st.requests| ==> after.requests[j] == st.requests[j];
    }
    RunGrows(after, clock, steps);
  }

  // ----- Approving an appeal -----

  /**
   * Approving an appeal always succeeds on a refused request, and reopens it exactly when the appeal's key is
   * unused. It is used afterwards.
   */
  lemma ApprovalReopensOnce(st: Store, clock: Clock, requestId: string, appealId: string, explanation: Option<string>)
    requires var i := IndexOf(st.requests, requestId);
             && i < |st.requests| && st.requests[i].status == Refused
             && IndexOfAppeal(st.requests[i].appeals, appealId) < |st.requests[i].appeals|
    ensures var i, k := IndexOf(st.requests, requestId), OverturnKey(requestId, appealId);
            var (answer, after) := DecideAppealIn(st, clock, requestId, appealId, Approve, explanation);
            && answer == Ok(Approve) && |after.requests| == |st.requests|
            && after.requests[i].status == (if KeyUsed(st.timeline, requestId, k) then Refused else InProgress)
            && KeyUsed(after.timeline, requestId, k)
  {
    hide OverturnKey, Dedupe, SegmentsOf, TimelineOf, KeyUsed;
    var i, k := IndexOf(st.requests, requestId), OverturnKey(requestId, appealId);
    var input := OverturnInput(requestId, appealId, explanation);
    var st1 := TransitionIn(st, clock, input).1;
    assert Truthy(input.key) by { OverturnKeyNotEmpty(requestId, appealId); }
    TransitionKeepsPlaces(st, clock, input);
    if !KeyUsed(st.timeline, requestId, k) {
      AppendedKeyIsUsed(st.timeline, TimelineEvent(requestId, ToEventType(OverturnOnAppeal), Some(k)));
    }
    var decided := TimelineEvent(requestId, OtherEvent("appeal_decided"), None);
    KeyStaysUsed(st1.timeline, st1.timeline + [decided], requestId, k);
  }

  lemma OverturnKeyNotEmpty(requestId: string, appealId: string)
    ensures OverturnKey(requestId, appealId) != ""
  {
  }

  /** So a second approval of the same appeal reopens nothing, whatever happened in between. */
  lemma SecondApprovalReopensNothing(st: Store, clock: Clock, requestId: string, appealId: string,
                                     explanation: Option<string>, steps: seq<Step>, again: Option<string>)
    requires var i := IndexOf(st.requests, requestId);
             && i < |st.requests| && st.requests[i].status == Refused
             && IndexOfAppeal(st.requests[i].appeals, appealId) < |st.requests[i].appeals|
    requires var later := Run(DecideAppealIn(st, clock, requestId, appealId, Approve, explanation).1, clock, steps);
             var i := IndexOf(later.requests, requestId);
             && i < |later.requests| && later.requests[i].status == Refused
             && IndexOfAppeal(later.requests[i].appeals, appealId) < |later.requests[i].appeals|
    ensures var later := Run(DecideAppealIn(st, clock, requestId, appealId, Approve, explanation).1, clock, steps);
            var i := IndexOf(later.requests, requestId);
            var (answer, end) := DecideAppealIn(later, clock, requestId, appealId, Approve, again);
            answer == Ok(Approve) && i < |end.requests| && end.requests[i].status == Refused
  {
    hide Run, DecideAppealIn, KeyUsed, OverturnKey, IndexOf, IndexOfAppeal;
    var after := DecideAppealIn(st, clock, requestId, appealId, Approve, explanation).1;
    var later := Run(after, clock, steps);
    ApprovalReopensOnce(st, clock, requestId, appealId, explanation);
    RunGrows(after, clock, steps);
    KeyStaysUsed(after.timeline, later.timeline, requestId, OverturnKey(requestId, appealId));
    ApprovalReopensOnce(later, clock, requestId, appealId, again);
  }

  // ----- Such states are reached -----

  /** The store holds one request, undecided by policy, which has this one appeal when `appealed` says so. */
  ghost predicate Holds(st: Store, requestId: string, appealId: string, status: Status, appealed: bool, used: bool)
  {
    && |st.requests| == 1
    && st.requests[0].id == requestId && st.requests[0].status == status && st.requests[0].decision == NoDecision
    && |st.requests[0].appeals| == (if appealed then 1 else 0)
    && (appealed ==> st.requests[0].appeals[0].id == appealId)
    && (KeyUsed(st.timeline, requestId, OverturnKey(requestId, appealId)) <==> used)
  }

  lemma KeyUsedNext(timeline: seq<TimelineEvent>, event: TimelineEvent, requestId: string, key: string)
    ensures KeyUsed(timeline + [event], requestId, key)
       <==> KeyUsed(timeline, requestId, key) || (event.requestId == requestId && event.idempotencyKey == Some(key))
  {
    var events := TimelineOf(timeline, requestId);
    FilterConcat(EventOf(requestId), timeline, [event]);
    var after := TimelineOf(timeline + [event], requestId);
    assert after == events + if event.requestId == requestId then [event] else [];
    forall i | 0 <= i < |events| ensures after[i] == events[i] {}
    if event.requestId == requestId { assert after[|events|] == event; }
  }

  const CLOCK_START := 0

  const REASON := "Outside the scope of the request."

  function CaptureOf(requestId: string): Step
  {
    CaptureRequest(CaptureInput(Some(CLOCK_START), None, requestId, NoDecision, CLOCK_START))
  }

  function TransitionOf(requestId: string, action: Action, key: Option<string>): Step
  {
    TransitionRequest(TransitionInput(requestId, action, Some(REASON), key))
  }

  lemma CaptureHolds(clock: Clock, requestId: string, appealId: string)
    ensures Enabled(EMPTY_STORE, CaptureOf(requestId))
    ensures Holds(Apply(EMPTY_STORE, clock, CaptureOf(requestId)), requestId, appealId, Captured, false, false)
  {
    hide OverturnKey, Dedupe, KeyUsed;
    var k := OverturnKey(requestId, appealId);
    assert !KeyUsed([], requestId, k) by { NoKeyUsed(requestId, k); }
    KeyUsedNext([], TimelineEvent(requestId, CaptureEvent, None), requestId, k);
    assert [] + [TimelineEvent(requestId, CaptureEvent, None)] == [TimelineEvent(requestId, CaptureEvent, None)];
  }

  lemma NoKeyUsed(requestId: string, key: string)
    ensures !KeyUsed([], requestId, key)
  {
  }

  /** A transition without a key, or under the appeal's key while that is unused. */
  lemma TransitionHolds(st: Store, clock: Clock, requestId: string, appealId: string, from: Status, appealed: bool,
                        used: bool, action: Action, key: Option<string>)
    requires Holds(st, requestId, appealId, from, appealed, used)
    requires action != OverturnOnAppeal && from in Transitions(action)
    requires key.Some? ==> !used && key.value == OverturnKey(requestId, appealId)
    ensures Enabled(st, TransitionOf(requestId, action, key))
    ensures Holds(Apply(st, clock, TransitionOf(requestId, action, key)), requestId, appealId,
                  StatusByAction(action), appealed, used || key.Some?)
  {
    hide OverturnKey, Dedupe, SegmentsOf, TimelineOf, KeyUsed, ApplyTransition, Transitions, StatusByAction;
    WithReason(action, from);
    assert IndexOf(st.requests, requestId) == 0;
    KeyUsedNext(st.timeline, TimelineEvent(requestId, ToEventType(action), key), requestId,
                OverturnKey(requestId, appealId));
  }

  lemma WithReason(action: Action, from: Status)
    requires from in Transitions(action)
    ensures ApplyTransition(action, from, Some(REASON)) == Ok(StatusByAction(action))
  {
    KnownWhenAllowed(from, action);
    assert !Text.WhiteSpace(REASON[0]);
  }

  lemma SubmitHolds(st: Store, clock: Clock, requestId: string, appealId: string, status: Status, used: bool)
    requires Holds(st, requestId, appealId, status, false, used)
    ensures Enabled(st, SubmitAppeal(requestId, appealId))
    ensures Holds(Apply(st, clock, SubmitAppeal(requestId, appealId)), requestId, appealId, status, true, used)
  {
    hide OverturnKey, TimelineOf, KeyUsed;
    assert IndexOf(st.requests, requestId) == 0;
    KeyUsedNext(st.timeline, TimelineEvent(requestId, OtherEvent("appeal_submitted"), None), requestId,
                OverturnKey(requestId, appealId));
  }

  lemma ApprovalHolds(st: Store, clock: Clock, requestId: string, appealId: string, used: bool)
    requires Holds(st, requestId, appealId, Refused, true, used)
    ensures Holds(Apply(st, clock, DecideAppeal(requestId, appealId, Approve, None)), requestId, appealId,
                  if used then Refused else InProgress, true, true)
  {
    hide OverturnKey, Dedupe, SegmentsOf, TimelineOf, KeyUsed;
    assert IndexOf(st.requests, requestId) == 0;
    assert IndexOfAppeal(st.requests[0].appeals, appealId) == 0;
    ApprovalReopensOnce(st, clock, requestId, appealId, None);
    TransitionKeepsPlaces(st, clock, OverturnInput(requestId, appealId, None));
  }

  lemma {:induction false} OneStepMore(st: Store, clock: Clock, steps: seq<Step>, step: Step)
    ensures Run(st, clock, steps + [step]) == Apply(Run(st, clock, steps), clock, step)
    ensures Possible(st, clock, steps + [step]) <==> Possible(st, clock, steps) && Enabled(Run(st, clock, steps), step)
    decreases |steps|
  {
    hide Apply, Enabled;
    if steps == [] {
      assert steps + [step] == [step];
    } else {
      assert (steps + [step])[1..] == steps[1..] + [step];
      OneStepMore(Apply(st, clock, steps[0]), clock, steps[1..], step);
    }
  }

  /** Capture, ask for verification, refuse, appeal, approve. */
  function RefusedAndReopened(requestId: string, appealId: string): seq<Step>
  {
    [CaptureOf(requestId)] + [TransitionOf(requestId, RequestVerification, None)]
    + [TransitionOf(requestId, Refuse, None)] + [SubmitAppeal(requestId, appealId)]
    + [DecideAppeal(requestId, appealId, Approve, None)]
  }

  lemma ReopenedHolds(clock: Clock, requestId: string, appealId: string)
    ensures var steps := RefusedAndReopened(requestId, appealId);
            && Possible(EMPTY_STORE, clock, steps)
            && Holds(Run(EMPTY_STORE, clock, steps), requestId, appealId, InProgress, true, true)
  {
    hide Run, Possible, Apply, Enabled, Holds;
    var s1 := [CaptureOf(requestId)];
    CaptureHolds(clock, requestId, appealId);
    NoStepsYet(EMPTY_STORE, clock);
    OneStepMore(EMPTY_STORE, clock, [], CaptureOf(requestId));
    assert [] + s1 == s1;
    var s2 := s1 + [TransitionOf(requestId, RequestVerification, None)];
    TransitionHolds(Run(EMPTY_STORE, clock, s1), clock, requestId, appealId, Captured, false, false,
                    RequestVerification, None);
    OneStepMore(EMPTY_STORE, clock, s1, TransitionOf(requestId, RequestVerification, None));
    var s3 := s2 + [TransitionOf(requestId, Refuse, None)];
    TransitionHolds(Run(EMPTY_STORE, clock, s2), clock, requestId, appealId, VerificationPending, false, false,
                    Refuse, None);
    OneStepMore(EMPTY_STORE, clock, s2, TransitionOf(requestId, Refuse, None));
    var s4 := s3 + [SubmitAppeal(requestId, appealId)];
    SubmitHolds(Run(EMPTY_STORE, clock, s3), clock, requestId, appealId, Refused, false);
    OneStepMore(EMPTY_STORE, clock, s3, SubmitAppeal(requestId, appealId));
    ApprovalHolds(Run(EMPTY_STORE, clock, s4), clock, requestId, appealId, false);
    OneStepMore(EMPTY_STORE, clock, s4, DecideAppeal(requestId, appealId, Approve, None));
    DecisionIsEnabled(Run(EMPTY_STORE, clock, s4), requestId, appealId);
  }

  lemma NoStepsYet(st: Store, clock: Clock)
    ensures Run(st, clock, []) == st && Possible(st, clock, [])
  {
  }

  lemma DecisionIsEnabled(st: Store, requestId: string, appealId: string)
    ensures Enabled(st, DecideAppeal(requestId, appealId, Approve, None))
  {
  }

  /** Refused again and approved again, for every clock and all ids: the run is possible and ends refused. */
  lemma ApprovedTwiceStaysRefused(clock: Clock, requestId: string, appealId: string)
    ensures var steps := RefusedAndReopened(requestId, appealId) + [TransitionOf(requestId, Refuse, None)]
                         + [DecideAppeal(requestId, appealId, Approve, None)];
            var end := Run(EMPTY_STORE, clock, steps);
            Possible(EMPTY_STORE, clock, steps) && |end.requests| == 1 && end.requests[0].status == Refused
  {
    hide Run, Possible, Apply, Enabled;
    var s5 := RefusedAndReopened(requestId, appealId);
    ReopenedHolds(clock, requestId, appealId);
    var s6 := s5 + [TransitionOf(requestId, Refuse, None)];
    TransitionHolds(Run(EMPTY_STORE, clock, s5), clock, requestId, appealId, InProgress, true, true, Refuse,
                    None);
    OneStepMore(EMPTY_STORE, clock, s5, TransitionOf(requestId, Refuse, None));
    ApprovalHolds(Run(EMPTY_STORE, clock, s6), clock, requestId, appealId, true);
    OneStepMore(EMPTY_STORE, clock, s6, DecideAppeal(requestId, appealId, Approve, None));
    DecisionIsEnabled(Run(EMPTY_STORE, clock, s6), requestId, appealId);
  }

  /**
   * A caller can spend the appeal's key: appeal first, refuse under that key, and the first approval already leaves
   * the request refused, though nothing was ever reopened.
   */
  lemma SpentKeyStaysRefused(clock: Clock, requestId: string, appealId: string)
    ensures var steps := [CaptureOf(requestId)] + [TransitionOf(requestId, RequestVerification, None)]
                         + [SubmitAppeal(requestId, appealId)]
                         + [TransitionOf(requestId, Refuse, Some(OverturnKey(requestId, appealId)))]
                         + [DecideAppeal(requestId, appealId, Approve, None)];
            var end := Run(EMPTY_STORE, clock, steps);
            Possible(EMPTY_STORE, clock, steps) && |end.requests| == 1 && end.requests[0].status == Refused
  {
    hide Run, Possible, Apply, Enabled;
    var key := Some(OverturnKey(requestId, appealId));
    var s1 := [CaptureOf(requestId)];
    CaptureHolds(clock, requestId, appealId);
    NoStepsYet(EMPTY_STORE, clock);
    OneStepMore(EMPTY_STORE, clock, [], CaptureOf(requestId));
    assert [] + s1 == s1;
    var s2 := s1 + [TransitionOf(requestId, RequestVerification, None)];
    TransitionHolds(Run(EMPTY_STORE, clock, s1), clock, requestId, appealId, Captured, false, false,
                    RequestVerification, None);
    OneStepMore(EMPTY_STORE, clock, s1, TransitionOf(requestId, RequestVerification, None));
    var s3 := s2 + [SubmitAppeal(requestId, appealId)];
    SubmitHolds(Run(EMPTY_STORE, clock, s2), clock, requestId, appealId, VerificationPending, false);
    OneStepMore(EMPTY_STORE, clock, s2, SubmitAppeal(requestId, appealId));
    var s4 := s3 + [TransitionOf(requestId, Refuse, key)];
    TransitionHolds(Run(EMPTY_STORE, clock, s3), clock, requestId, appealId, VerificationPending, true, false,
                    Refuse, key);
    OneStepMore(EMPTY_STORE, clock, s3, TransitionOf(requestId, Refuse, key));
    ApprovalHolds(Run(EMPTY_STORE, clock, s4), clock, requestId, appealId, true);
    OneStepMore(EMPTY_STORE, clock, s4, DecideAppeal(requestId, appealId, Approve, None));
    DecisionIsEnabled(Run(EMPTY_STORE, clock, s4), requestId, appealId);
  }
}
