/**
 * The request lifecycle on its own: the transition table (lifecycle/state-machine.ts), the timeline event each
 * action leaves (lifecycle/clock.ts), and what every timeline the table allows has in common.
 */
module LifecycleRules {
  import opened Basics
  import Text

  /** `Unknown` is a stored status text that is not one of the six stages. */
  datatype Status = Captured | VerificationPending | InProgress | Fulfilled | Refused | Closed | Unknown(text: string)

  datatype Action =
    | RequestVerification
    | ApproveVerification
    | RejectVerification
    | RequestClarification
    | ReceiveClarification
    | Extend
    | OverturnOnAppeal
    | Fulfil
    | Refuse
    | Close

  const STATUSES := [Captured, VerificationPending, InProgress, Fulfilled, Refused, Closed]

  const ACTIONS := [RequestVerification, ApproveVerification, RejectVerification, RequestClarification,
                    ReceiveClarification, Extend, OverturnOnAppeal, Fulfil, Refuse, Close]

  function Transitions(a: Action): seq<Status>
  {
    match a
    case OverturnOnAppeal => [Refused]
    case ReceiveClarification => [InProgress]
    case RequestClarification => [InProgress, VerificationPending]
    case Close => [Fulfilled, Refused]
    case Extend => [InProgress]
    case Fulfil => [InProgress]
    case Refuse => [InProgress, VerificationPending]
    case ApproveVerification => [VerificationPending]
    case RejectVerification => [VerificationPending]
    case RequestVerification => [Captured, InProgress]
  }

  function StatusByAction(a: Action): Status
  {
    match a
    case OverturnOnAppeal => InProgress
    case ReceiveClarification => InProgress
    case RequestClarification => InProgress
    case Close => Closed
    case Extend => InProgress
    case Fulfil => Fulfilled
    case Refuse => Refused
    case ApproveVerification => InProgress
    case RejectVerification => InProgress
    case RequestVerification => VerificationPending
  }

  predicate RationaleRequired(a: Action)
  {
    a == Extend || a == Refuse
  }

  /** Absent, or nothing but white space. */
  predicate Blank(rationale: Option<string>)
  {
    rationale.None? || Text.Blank(rationale.value)
  }

  datatype TransitionError = StatusUnknown | RationaleMissing | TransitionDisallowed

  function ApplyTransition(a: Action, from: Status, rationale: Option<string>): Result<Status, TransitionError>
  {
    if from.Unknown? then Err(StatusUnknown)
    else if RationaleRequired(a) && Blank(rationale) then Err(RationaleMissing)
    else if from !in Transitions(a) then Err(TransitionDisallowed)
    else Ok(StatusByAction(a))
  }

  // ----- The table turned around: actions by status -----

  function AllowedIn(s: Status): Action -> bool
  {
    (a: Action) => s in Transitions(a)
  }

  function AllowedFrom(s: Status): seq<Action>
  {
    Filter(AllowedIn(s), ACTIONS)
  }

  function Offered(a: Action, s: Status): seq<Action>
  {
    if s in Transitions(a) then [a] else []
  }

  lemma OneActionMore(s: Status, i: nat)
    requires i < |ACTIONS|
    ensures Filter(AllowedIn(s), ACTIONS[..i + 1])
         == Filter(AllowedIn(s), ACTIONS[..i]) + Offered(ACTIONS[i], s)
  {
    hide Transitions;
    assert ACTIONS[..i + 1] == ACTIONS[..i] + [ACTIONS[i]];
    FilterConcat(AllowedIn(s), ACTIONS[..i], [ACTIONS[i]]);
  }

  /** `allowedActionsByStatus`: one bucket per status, filled action by action in declared order. */
  method BuildAllowedActions() returns (buckets: map<Status, seq<Action>>)
    ensures buckets.Keys == (set s | s in STATUSES)
    ensures forall s :: s in STATUSES ==> buckets[s] == AllowedFrom(s)
  {
    hide Transitions, AllowedIn;
    buckets := EmptyBuckets();
    for i := 0 to |ACTIONS|
      invariant buckets.Keys == (set s | s in STATUSES)
      invariant forall s :: s in buckets ==> buckets[s] == Filter(AllowedIn(s), ACTIONS[..i])
    {
      ghost var before := buckets;
      buckets := PushAction(buckets, ACTIONS[i]);
      forall s | s in buckets ensures buckets[s] == Filter(AllowedIn(s), ACTIONS[..i + 1]) {
        OneActionMore(s, i);
      }
    }
    assert ACTIONS[..|ACTIONS|] == ACTIONS;
  }

  method EmptyBuckets() returns (buckets: map<Status, seq<Action>>)
    ensures buckets.Keys == (set s | s in STATUSES)
    ensures forall s :: s in buckets ==> buckets[s] == []
  {
    buckets := map[];
    for i := 0 to |STATUSES|
      invariant buckets.Keys == (set s | s in STATUSES[..i])
      invariant forall s :: s in buckets ==> buckets[s] == []
    {
      assert STATUSES[..i + 1] == STATUSES[..i] + [STATUSES[i]];
      buckets := buckets[STATUSES[i] := []];
    }
    assert STATUSES[..|STATUSES|] == STATUSES;
  }

  /** The inner loop: the action goes into the bucket of each status it is allowed from. */
  method PushAction(buckets: map<Status, seq<Action>>, a: Action) returns (r: map<Status, seq<Action>>)
    ensures r.Keys == buckets.Keys
    ensures forall s :: s in buckets ==> r[s] == buckets[s] + Offered(a, s)
  {
    r := buckets;
    var from := Transitions(a);
    for k := 0 to |from|
      invariant r.Keys == buckets.Keys
      invariant forall s :: s in buckets ==> r[s] == buckets[s] + if s in from[..k] then [a] else []
    {
      assert from[..k + 1] == from[..k] + [from[k]];
      assert from[k] !in from[..k];
      if from[k] in r {
        r := r[from[k] := r[from[k]] + [a]];
      }
    }
    assert from[..|from|] == from;
  }

  /** An action is listed for a status exactly when, given a rationale, it can be applied there. */
  lemma AllowedIsApplicable(s: Status, a: Action, rationale: string)
    requires !Blank(Some(rationale))
    ensures a in AllowedFrom(s) <==> ApplyTransition(a, s, Some(rationale)).Ok?
  {
    hide Transitions, StatusByAction, Blank;
    EveryAction(a);
    hide ACTIONS;
    FilterMembers(AllowedIn(s), ACTIONS);
    if s in Transitions(a) { KnownWhenAllowed(s, a); }
  }

  lemma EveryAction(a: Action)
    ensures a in ACTIONS
  {
  }

  lemma KnownWhenAllowed(s: Status, a: Action)
    requires s in Transitions(a)
    ensures !s.Unknown?
  {
  }

  // ----- Timelines -----

  datatype EventType =
    | CaptureEvent
    | AppealOverturned
    | ClarificationRequested
    | ClarificationReceived
    | DeadlineExtended
    | VerificationRequested
    | VerificationResolved
    | FulfilledEvent
    | RefusedEvent
    | ClosedEvent
    | OtherEvent(name: string)

  /** Approving and rejecting a verification leave the same event. */
  function ToEventType(a: Action): EventType
  {
    match a
    case OverturnOnAppeal => AppealOverturned
    case RequestClarification => ClarificationRequested
    case ReceiveClarification => ClarificationReceived
    case Extend => DeadlineExtended
    case RequestVerification => VerificationRequested
    case ApproveVerification => VerificationResolved
    case RejectVerification => VerificationResolved
    case Fulfil => FulfilledEvent
    case Refuse => RefusedEvent
    case Close => ClosedEvent
  }

  /** Replaying one event: a status read off its type alone; other events leave the status as it is. */
  function ReplayOne(s: Status, t: EventType): Status
  {
    match t
    case CaptureEvent => Captured
    case VerificationRequested => VerificationPending
    case FulfilledEvent => Fulfilled
    case RefusedEvent => Refused
    case ClosedEvent => Closed
    case OtherEvent(_) => s
    case _ => InProgress
  }

  function Replay(types: seq<EventType>): Status
  {
    if types == [] then Captured else ReplayOne(Replay(types[..|types| - 1]), types[|types| - 1])
  }

  /** Event `t` can follow at status `s`: some action leaving it is allowed there, or it is no transition. */
  predicate MayFollow(s: Status, t: EventType)
  {
    t.OtherEvent? || exists a: Action :: ToEventType(a) == t && s in Transitions(a)
  }

  /** A timeline the service can have written: a capture, then allowed transitions and other events. */
  predicate Legal(types: seq<EventType>)
  {
    && |types| > 0 && types[0] == CaptureEvent
    && forall k :: 1 <= k < |types| ==> MayFollow(Replay(types[..k]), types[k])
  }

  function Count(types: seq<EventType>, t: EventType): nat
  {
    if types == [] then 0
    else Count(types[..|types| - 1], t) + if types[|types| - 1] == t then 1 else 0
  }

  lemma LegalPrefix(types: seq<EventType>, n: nat)
    requires Legal(types) && 1 <= n <= |types|
    ensures Legal(types[..n])
  {
    forall k | 1 <= k < n ensures MayFollow(Replay(types[..n][..k]), types[..n][k]) {
      assert types[..n][..k] == types[..k];
    }
  }

  /** What the status says about the counts: the invariant behind all counting results. */
  ghost predicate CountsFit(s: Status, types: seq<EventType>)
  {
    var f, c, r, o := Count(types, FulfilledEvent), Count(types, ClosedEvent), Count(types, RefusedEvent),
                      Count(types, AppealOverturned);
    match s
    case Fulfilled => f == 1 && c == 0 && r == o
    case Refused => f == 0 && c == 0 && r == o + 1
    case Closed => c == 1 && ((f == 1 && r == o) || (f == 0 && r == o + 1))
    case Unknown(_) => false
    case _ => f == 0 && c == 0 && r == o
  }

  lemma CountsFitNext(s: Status, types: seq<EventType>, t: EventType)
    requires CountsFit(s, types) && MayFollow(s, t)
    ensures CountsFit(ReplayOne(s, t), types + [t])
  {
    var all := types + [t];
    assert all[..|types|] == types && all[|types|] == t;
    assert forall x :: Count(all, x) == Count(types, x) + if t == x then 1 else 0;
  }

  lemma CaptureCountsFit()
    ensures CountsFit(Replay([CaptureEvent]), [CaptureEvent])
  {
    assert [CaptureEvent][..0] == [];
  }

  lemma {:induction false} LegalCounts(types: seq<EventType>)
    requires Legal(types)
    ensures CountsFit(Replay(types), types)
  {
    hide MayFollow, CountsFit, ReplayOne, Count;
    var n := |types| - 1;
    assert types == types[..n] + [types[n]];
    if n == 0 {
      assert types == [CaptureEvent];
      CaptureCountsFit();
    } else {
      LegalPrefix(types, n);
      LegalCounts(types[..n]);
      CountsFitNext(Replay(types[..n]), types[..n], types[n]);
    }
  }

  /** A request is fulfilled at most once, closed at most once, and refused at most once more than overturned. */
  lemma CountingBounds(types: seq<EventType>)
    requires Legal(types)
    ensures Count(types, FulfilledEvent) <= 1
    ensures Count(types, ClosedEvent) <= 1
    ensures Count(types, RefusedEvent) <= Count(types, AppealOverturned) + 1
  {
    LegalCounts(types);
  }

  lemma OnlyOthersAfterClose(t: EventType)
    requires MayFollow(Closed, t)
    ensures t.OtherEvent?
  {
  }

  lemma {:induction false} ClosedStays(types: seq<EventType>, m: nat, n: nat)
    requires Legal(types) && m < n <= |types| && types[m] == ClosedEvent
    ensures Replay(types[..n]) == Closed
    ensures forall k :: m < k < n ==> types[k].OtherEvent?
  {
    hide MayFollow;
    assert types[..n][..n - 1] == types[..n - 1];
    if n > m + 1 {
      ClosedStays(types, m, n - 1);
      assert MayFollow(Replay(types[..n - 1]), types[n - 1]);
      OnlyOthersAfterClose(types[n - 1]);
    }
  }

  /** No transition follows a close. */
  lemma NothingAfterClose(types: seq<EventType>, m: nat, k: nat)
    requires Legal(types) && m < k < |types| && types[m] == ClosedEvent
    ensures types[k].OtherEvent?
  {
    ClosedStays(types, m, |types|);
  }

  lemma {:induction false} CapturedUntilFirst(types: seq<EventType>, n: nat)
    requires |types| > 0 && types[0] == CaptureEvent && 1 <= n <= |types|
    requires forall j :: 1 <= j < n ==> types[j].OtherEvent?
    ensures Replay(types[..n]) == Captured
  {
    assert types[..n][..n - 1] == types[..n - 1];
    if n > 1 { CapturedUntilFirst(types, n - 1); }
  }

  /** The first transition of a request is the request for verification. */
  lemma FirstTransitionIsVerification(types: seq<EventType>, k: nat)
    requires Legal(types) && 1 <= k < |types| && !types[k].OtherEvent?
    requires forall j :: 1 <= j < k ==> types[j].OtherEvent?
    ensures types[k] == VerificationRequested
  {
    CapturedUntilFirst(types, k);
    assert MayFollow(Replay(types[..k]), types[k]);
  }

  /** An applied transition leaves an event that may follow, and replaying the event gives the new status. */
  lemma TransitionReplays(a: Action, from: Status, rationale: Option<string>)
    requires ApplyTransition(a, from, rationale).Ok?
    ensures MayFollow(from, ToEventType(a))
    ensures ReplayOne(from, ToEventType(a)) == ApplyTransition(a, from, rationale).value
  {
  }

  // ----- The lifecycle as a diagram -----

  datatype Edge = Edge(from: Status, action: Action, to: Status, event: EventType)

  const DIAGRAM := {
    Edge(Captured, RequestVerification, VerificationPending, VerificationRequested),
    Edge(VerificationPending, ApproveVerification, InProgress, VerificationResolved),
    Edge(VerificationPending, RejectVerification, InProgress, VerificationResolved),
    Edge(VerificationPending, RequestClarification, InProgress, ClarificationRequested),
    Edge(VerificationPending, Refuse, Refused, RefusedEvent),
    Edge(InProgress, RequestVerification, VerificationPending, VerificationRequested),
    Edge(InProgress, RequestClarification, InProgress, ClarificationRequested),
    Edge(InProgress, ReceiveClarification, InProgress, ClarificationReceived),
    Edge(InProgress, Extend, InProgress, DeadlineExtended),
    Edge(InProgress, Fulfil, Fulfilled, FulfilledEvent),
    Edge(InProgress, Refuse, Refused, RefusedEvent),
    Edge(Fulfilled, Close, Closed, ClosedEvent),
    Edge(Refused, Close, Closed, ClosedEvent),
    Edge(Refused, OverturnOnAppeal, InProgress, AppealOverturned)
  }

  /** Extensions and refusals need a rationale that is more than white space. */
  ghost predicate Explained(a: Action, rationale: Option<string>)
  {
    a == Extend || a == Refuse ==>
      rationale.Some? && exists k :: 0 <= k < |rationale.value| && !Text.WhiteSpace(rationale.value[k])
  }

  lemma EdgesAreTheTables(e: Edge)
    ensures e in DIAGRAM <==>
              e.from in Transitions(e.action) && e.to == StatusByAction(e.action) && e.event == ToEventType(e.action)
  {
  }

  /** A transition goes through exactly along an edge, explained where needed; of several faults one is named. */
  lemma TransitionsFollowDiagram(a: Action, from: Status, rationale: Option<string>, to: Status)
    ensures ApplyTransition(a, from, rationale) == Ok(to) <==>
              Explained(a, rationale) && Edge(from, a, to, ToEventType(a)) in DIAGRAM
    ensures var r := ApplyTransition(a, from, rationale);
            && (r == Err(StatusUnknown) <==> from.Unknown?)
            && (r == Err(RationaleMissing) <==> !from.Unknown? && !Explained(a, rationale))
            && (r == Err(TransitionDisallowed) <==>
                  !from.Unknown? && Explained(a, rationale) && forall t, e :: Edge(from, a, t, e) !in DIAGRAM)
  {
    hide Transitions, StatusByAction, ToEventType, DIAGRAM;
    EdgesAreTheTables(Edge(from, a, to, ToEventType(a)));
    forall t, e ensures Edge(from, a, t, e) in DIAGRAM ==> from in Transitions(a) {
      EdgesAreTheTables(Edge(from, a, t, e));
    }
    EdgesAreTheTables(Edge(from, a, StatusByAction(a), ToEventType(a)));
    if from in Transitions(a) { KnownWhenAllowed(from, a); }
  }

  lemma OfferedFirst(s: Status)
    ensures Filter(AllowedIn(s), ACTIONS[..5]) == Offered(RequestVerification, s) + Offered(ApproveVerification, s)
      + Offered(RejectVerification, s) + Offered(RequestClarification, s) + Offered(ReceiveClarification, s)
  {
    hide Transitions, Offered, AllowedIn;
    assert Filter(AllowedIn(s), ACTIONS[..0]) == [];
    OneActionMore(s, 0);
    OneActionMore(s, 1);
    OneActionMore(s, 2);
    OneActionMore(s, 3);
    OneActionMore(s, 4);
    hide Filter;
  }

  lemma OfferedInOrder(s: Status)
    ensures AllowedFrom(s) == Filter(AllowedIn(s), ACTIONS[..5]) + Offered(Extend, s) + Offered(OverturnOnAppeal, s)
      + Offered(Fulfil, s) + Offered(Refuse, s) + Offered(Close, s)
  {
    hide Transitions, Offered, AllowedIn, Filter;
    assert ACTIONS[..10] == ACTIONS;
    OneActionMore(s, 5);
    OneActionMore(s, 6);
    OneActionMore(s, 7);
    OneActionMore(s, 8);
    OneActionMore(s, 9);
  }

  lemma OfferedWhere(s: Status)
    ensures Offered(RequestVerification, s)
         == if s == Captured || s == InProgress then [RequestVerification] else []
    ensures Offered(ApproveVerification, s) == if s == VerificationPending then [ApproveVerification] else []
    ensures Offered(RejectVerification, s) == if s == VerificationPending then [RejectVerification] else []
    ensures Offered(RequestClarification, s)
         == if s == VerificationPending || s == InProgress then [RequestClarification] else []
    ensures Offered(ReceiveClarification, s) == if s == InProgress then [ReceiveClarification] else []
    ensures Offered(Extend, s) == if s == InProgress then [Extend] else []
    ensures Offered(OverturnOnAppeal, s) == if s == Refused then [OverturnOnAppeal] else []
    ensures Offered(Fulfil, s) == if s == InProgress then [Fulfil] else []
    ensures Offered(Refuse, s) == if s == VerificationPending || s == InProgress then [Refuse] else []
    ensures Offered(Close, s) == if s == Fulfilled || s == Refused then [Close] else []
  {
  }

  /** The actions offered for each status, in declared order; none for an unknown one. */
  lemma ActionsByStatus(s: Status)
    ensures AllowedFrom(s) ==
      match s
      case Captured => [RequestVerification]
      case VerificationPending => [ApproveVerification, RejectVerification, RequestClarification, Refuse]
      case InProgress => [RequestVerification, RequestClarification, ReceiveClarification, Extend, Fulfil, Refuse]
      case Fulfilled => [Close]
      case Refused => [OverturnOnAppeal, Close]
      case Closed => []
      case Unknown(_) => []
  {
    hide AllowedFrom, Filter, AllowedIn;
    OfferedFirst(s);
    OfferedInOrder(s);
    OfferedWhere(s);
    hide Offered, Transitions;
  }
}
