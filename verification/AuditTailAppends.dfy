/**
 * From append steps to tail output: the log that serialised appends leave (audit/service.ts) is what the tail
 * (audit-tail.ts) relies on, and what the tail writes is the chain they built.
 */
module AuditTailAppends {
  import opened Basics
  import opened AuditChain
  import opened AuditDigest
  import opened AuditHash
  import opened AuditLog
  import opened AuditTail
  import opened AuditTailLoop
  import opened AuditTailRun
  import opened Keyset
  import Text

  ghost predicate ReadsFor(step: Step, requestId: string)
  {
    step.Read? && step.input.requestId == Some(requestId)
  }

  /** The request's appends take their creation times from a clock that does not run backwards. */
  ghost predicate Timed(steps: seq<Step>, requestId: string)
  {
    forall j, k :: 0 <= j < k < |steps| && ReadsFor(steps[j], requestId) && ReadsFor(steps[k], requestId) ==>
      steps[j].input.createdAt <= steps[k].input.createdAt
  }

  /** Every event and every waiting event of the request is from `t` or earlier, the one waiting is the last. */
  ghost predicate UpTo(s: State, requestId: string, t: int)
  {
    && InTimeOrder(s.events, requestId)
    && (forall i :: 0 <= i < |s.events| && Mine(s.events[i], requestId) ==> s.events[i].createdAt <= t)
    && (forall c :: c in s.pending && Mine(s.pending[c], requestId) ==>
          && s.pending[c].createdAt <= t
          && forall i :: 0 <= i < |s.events| && Mine(s.events[i], requestId) ==>
               s.events[i].createdAt <= s.pending[c].createdAt)
    && (forall c, d ::
          c in s.pending && d in s.pending && Mine(s.pending[c], requestId) && Mine(s.pending[d], requestId) ==> c == d)
  }

  lemma StepKeepsTime(digest: HashInput -> string, s: State, step: Step, requestId: string, t: int)
    requires requestId != "" && UpTo(s, requestId, t) && Enabled(s, step)
    requires ReadsFor(step, requestId) ==> t <= step.input.createdAt
    ensures UpTo(Apply(digest, s, step), requestId, if ReadsFor(step, requestId) then step.input.createdAt else t)
  {
    match step
    case Read(client, input, freshId, correlationId) =>
      hide ExpectedHash;
    case Write(client) =>
      var e, u := s.pending[client], Apply(digest, s, step);
      if !HasId(s.events, e.id) {
        assert u.events == s.events + [e];
      }
  }

  lemma {:induction false} RunKeepsTime(digest: HashInput -> string, s: State, steps: seq<Step>, requestId: string,
                                        t: int)
    requires requestId != "" && UpTo(s, requestId, t) && Serialised(digest, s, steps) && Timed(steps, requestId)
    requires forall k :: 0 <= k < |steps| && ReadsFor(steps[k], requestId) ==> t <= steps[k].input.createdAt
    ensures InTimeOrder(Run(digest, s, steps).events, requestId)
    decreases |steps|
  {
    if steps != [] {
      var u := if ReadsFor(steps[0], requestId) then steps[0].input.createdAt else t;
      StepKeepsTime(digest, s, steps[0], requestId, t);
      forall k | 0 <= k < |steps[1..]| && ReadsFor(steps[1..][k], requestId)
        ensures u <= steps[1..][k].input.createdAt
      {
        assert steps[1..][k] == steps[k + 1];
      }
      RunKeepsTime(digest, Apply(digest, s, steps[0]), steps[1..], requestId, u);
    }
  }

  /** The log that serialised, timed appends leave has all the tail requires: unique ids, time order, numbers. */
  lemma SerialisedLogSuitsTail(digest: HashInput -> string, steps: seq<Step>, requestId: string)
    requires requestId != "" && Serialised(digest, EMPTY_LOG, steps) && Timed(steps, requestId)
    ensures var log := Run(digest, EMPTY_LOG, steps).events;
            Orderly(log, requestId) && Numbered(Tailed(log, requestId))
  {
    EveryChainVerifies(digest, steps, requestId);
    RunKeepsIds(digest, EMPTY_LOG, steps);
    var t := EarliestRead(steps, requestId);
    RunKeepsTime(digest, EMPTY_LOG, steps, requestId, t);
    TailedIsChain(Run(digest, EMPTY_LOG, steps).events, requestId);
  }

  lemma {:induction false} EarliestRead(steps: seq<Step>, requestId: string) returns (t: int)
    ensures forall k :: 0 <= k < |steps| && ReadsFor(steps[k], requestId) ==> t <= steps[k].input.createdAt
  {
    t := 0;
    if steps != [] {
      t := EarliestRead(steps[1..], requestId);
      if steps[0].Read? && steps[0].input.createdAt < t { t := steps[0].input.createdAt; }
      forall k | 0 <= k < |steps| && ReadsFor(steps[k], requestId) ensures t <= steps[k].input.createdAt {
        assert k > 0 ==> steps[1..][k - 1] == steps[k];
      }
    }
  }

  lemma TailedOfPrefix(log: seq<AuditEvent>, requestId: string, n: nat)
    requires requestId != "" && n <= |log|
    ensures Tailed(log[..n], requestId) == Chain(log[..n], requestId) <= Chain(log, requestId)
    ensures n == |log| ==> Tailed(log[..n], requestId) == Chain(log, requestId)
  {
    assert log == log[..n] + log[n..];
    FilterConcat(ForRequest(requestId), log[..n], log[n..]);
    TailedIsChain(log[..n], requestId);
    if n == |log| { assert log[..n] == log; }
  }

  lemma BlankIdIsInChain(log: seq<AuditEvent>, n: nat, requestId: string)
    requires requestId != "" && n <= |log| && BlankIdWanted(log[..n], requestId, None)
    ensures exists e :: e in Chain(log, requestId) && Text.Blank(e.id)
  {
    var e :| e in log[..n] && Wanted(e, requestId, None) && Text.Blank(e.id);
    KeptIsMember(ForRequest(requestId), log, e);
  }

  /**
   * The tail over a log that serialised, timed appends build while it polls: `visible` events are there when it
   * starts, and before each fetch the next number of `arrivals` more appear. Without blank event ids it does not
   * fail. Up to fifty full pages of events of the request, every drain is complete; when moreover no drain sees the
   * log change, the output is the chain the appends built, as far as it was seen.
   */
  method TailAppends(digest: HashInput -> string, steps: seq<Step>, flag: string, visible: nat, arrivals: seq<nat>,
                     maxPolls: nat)
    returns (written: seq<AuditEvent>, failed: bool, seen: nat,
             ghost starts: seq<nat>, ghost ends: seq<nat>, ghost marks: seq<nat>)
    requires Text.Trim(flag) != "" && Serialised(digest, EMPTY_LOG, steps) && Timed(steps, Text.Trim(flag))
    requires visible <= |Run(digest, EMPTY_LOG, steps).events|
    ensures var log := Run(digest, EMPTY_LOG, steps).events;
            && visible <= seen <= |log|
            && UniqueIds(written) && OnlyMine(log[..seen], Text.Trim(flag), written) && TimeOrdered(written)
    ensures failed ==> exists e :: e in ChainAfter(digest, steps, Text.Trim(flag)) && Text.Blank(e.id)
    ensures !failed ==> |starts| == |ends| == maxPolls
    ensures var log, requestId := Run(digest, EMPTY_LOG, steps).events, Text.Trim(flag);
            var chain := ChainAfter(digest, steps, requestId);
            |chain| <= 10_000 ==>
              && EveryDrainComplete(log, requestId, starts, marks, written)
              && (!failed && starts == ends && maxPolls > 0 ==>
                    && written == Chain(log[..seen], requestId) <= chain
                    && (seen == |log| ==> written == chain))
  {
    ghost var requestId := Text.Trim(flag);
    SerialisedLogSuitsTail(digest, steps, requestId);
    hide Run, Serialised, Timed, Orderly, Numbered, EveryDrainComplete, Chain, OnlyMine, TimeOrdered, UniqueIds,
         NowOrNever, UncutDrainsComplete, BlankIdWanted, PollsInOrder, Tailed;
    var log := Run(digest, EMPTY_LOG, steps).events;
    var api := new AuditApi(log, visible, arrivals);
    ghost var cuts, polled;
    written, failed, starts, ends, marks, cuts, polled := RunAuditTail(api, flag, maxPolls);
    seen := api.visible;
    TailedOfPrefix(log, requestId, seen);
    if failed { BlankIdIsInChain(log, seen, requestId); }
  }
}
