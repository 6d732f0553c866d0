/**
 * Appends without serialisation (audit/service.ts): what they leave in a request's chain, and exactly when
 * verification (export.ts) still accepts it.
 */
module AuditRaces {
  import opened Basics
  import opened AuditDigest
  import opened AuditHash
  import opened AuditLog
  import opened AuditChain
  import opened CanonicalJson
  import opened Keyset

  // ----- Every event hashes what it stores itself -----

  /** The stored hash is right for the previous hash stored beside it, which is never the empty text. */
  ghost predicate SelfHashed(digest: HashInput -> string, e: AuditEvent)
  {
    e.body.hash == ExpectedHash(digest, e, e.body.prevHash) && e.body.prevHash != Some("")
  }

  /** Nothing is chained behind the empty request id. */
  ghost predicate UnchainedWhenBlank(e: AuditEvent)
  {
    e.body.requestId == Some("") ==> e.body.prevHash == None
  }

  ghost predicate Sound(digest: HashInput -> string, e: AuditEvent)
  {
    SelfHashed(digest, e) && UnchainedWhenBlank(e)
  }

  ghost predicate AllSound(digest: HashInput -> string, s: State)
  {
    && (forall i :: 0 <= i < |s.events| ==> Sound(digest, s.events[i]))
    && (forall c :: c in s.pending ==> Sound(digest, s.pending[c]))
  }

  lemma PreparedIsSound(digest: HashInput -> string, events: seq<AuditEvent>, input: AppendInput, freshId: string,
                        correlationId: string)
    requires IdealDigest(digest) && forall i :: 0 <= i < |events| ==> Sound(digest, events[i])
    ensures Sound(digest, Prepared(digest, input, freshId, correlationId, Previous(events, input.requestId)))
  {
    var previous := Previous(events, input.requestId);
    var e := Prepared(digest, input, freshId, correlationId, previous);
    if previous.Some? {
      KeptIsMember(ForRequest(input.requestId.value), events, previous.value);
      var i :| 0 <= i < |events| && events[i] == previous.value;
      assert Sound(digest, events[i]);
    }
    assert InputOf(e, HashOf(previous)) == InputOf(e.(body := e.body.(hash := "")), HashOf(previous));
  }

  lemma {:induction false} RunKeepsSound(digest: HashInput -> string, s: State, steps: seq<Step>)
    requires IdealDigest(digest) && AllSound(digest, s)
    ensures AllSound(digest, Run(digest, s, steps))
    decreases |steps|
  {
    hide IdealDigest, Sound, Prepared;
    if steps != [] {
      if steps[0].Read? {
        PreparedIsSound(digest, s.events, steps[0].input, steps[0].freshId, steps[0].correlationId);
      }
      RunKeepsSound(digest, Apply(digest, s, steps[0]), steps[1..]);
    }
  }

  lemma ChainIsSound(digest: HashInput -> string, events: seq<AuditEvent>, requestId: string)
    requires forall i :: 0 <= i < |events| ==> Sound(digest, events[i])
    ensures var c := Chain(events, requestId);
            forall i :: 0 <= i < |c| ==> Sound(digest, c[i]) && c[i].body.requestId == Some(requestId)
  {
    hide Sound;
    var c := Chain(events, requestId);
    forall i | 0 <= i < |c| ensures Sound(digest, c[i]) && c[i].body.requestId == Some(requestId) {
      KeptIsMember(ForRequest(requestId), events, c[i]);
      var j :| 0 <= j < |events| && events[j] == c[i];
    }
  }

  lemma ChainAfterSound(digest: HashInput -> string, steps: seq<Step>, requestId: string)
    requires IdealDigest(digest)
    ensures var c := ChainAfter(digest, steps, requestId);
            forall i :: 0 <= i < |c| ==> Sound(digest, c[i]) && c[i].body.requestId == Some(requestId)
  {
    hide IdealDigest, Sound;
    RunKeepsSound(digest, EMPTY_LOG, steps);
    ChainIsSound(digest, Run(digest, EMPTY_LOG, steps).events, requestId);
  }

  // ----- What verification reports after an arbitrary run -----

  ghost predicate LinkedAt(c: seq<AuditEvent>, i: nat)
    requires i < |c|
  {
    c[i].body.prevHash == PreviousHash(c, i)
  }

  ghost predicate Linked(c: seq<AuditEvent>)
  {
    forall i :: 0 <= i < |c| ==> LinkedAt(c, i)
  }

  lemma BadMeansUnlinked(digest: HashInput -> string, c: seq<AuditEvent>, i: nat)
    requires IdealDigest(digest) && i < |c| && forall k :: 0 <= k < |c| ==> Sound(digest, c[k])
    ensures Bad(digest, c, i) <==> !LinkedAt(c, i)
  {
    hide Readable, SameHashedFields;
    assert SameButPrevious(InputOf(c[i], c[i].body.prevHash), InputOf(c[i], PreviousHash(c, i)));
    assert Sound(digest, c[i]);
    if i > 0 { assert Sound(digest, c[i - 1]); }
  }

  /**
   * After any run whatsoever, however its reads and writes interleave, verification reports exactly the events
   * that do not store the hash of the event in front of them.
   */
  lemma ReportedExactlyWhereUnlinked(digest: HashInput -> string, steps: seq<Step>, requestId: string, i: nat)
    requires IdealDigest(digest) && i < |ChainAfter(digest, steps, requestId)|
    ensures var c := ChainAfter(digest, steps, requestId);
            Bad(digest, c, i) <==> c[i].body.prevHash != PreviousHash(c, i)
  {
    hide IdealDigest, Sound, ChainAfter;
    ChainAfterSound(digest, steps, requestId);
    BadMeansUnlinked(digest, ChainAfter(digest, steps, requestId), i);
  }

  /** If the step appends to the request's chain, the last stored hash still is the one its client read. */
  ghost predicate TipAsRead(s: State, step: Step, requestId: string)
  {
    step.Write? && step.client in s.pending && !HasId(s.events, s.pending[step.client].id)
    && s.pending[step.client].body.requestId == Some(requestId)
    ==> s.pending[step.client].body.prevHash == HashOf(Last(Chain(s.events, requestId)))
  }

  ghost predicate TipsAsRead(digest: HashInput -> string, s: State, steps: seq<Step>, requestId: string)
    decreases |steps|
  {
    steps != [] ==>
      TipAsRead(s, steps[0], requestId) && TipsAsRead(digest, Apply(digest, s, steps[0]), steps[1..], requestId)
  }

  lemma LinkedExtends(c: seq<AuditEvent>, e: AuditEvent)
    ensures Linked(c + [e]) <==> Linked(c) && e.body.prevHash == HashOf(Last(c))
  {
    var d := c + [e];
    assert LinkedAt(d, |c|) <==> e.body.prevHash == HashOf(Last(c));
    assert forall i :: 0 <= i < |c| ==> (LinkedAt(d, i) <==> LinkedAt(c, i));
  }

  lemma {:induction false} LinkedExactlyWhenTipsAsRead(
      digest: HashInput -> string, s: State, steps: seq<Step>, requestId: string)
    ensures Linked(Chain(Run(digest, s, steps).events, requestId))
       <==> Linked(Chain(s.events, requestId)) && TipsAsRead(digest, s, steps, requestId)
    decreases |steps|
  {
    hide Linked, Prepared, Chain;
    if steps != [] {
      var t := Apply(digest, s, steps[0]);
      LinkedExactlyWhenTipsAsRead(digest, t, steps[1..], requestId);
      if steps[0].Write? && steps[0].client in s.pending && !HasId(s.events, s.pending[steps[0].client].id) {
        var e := s.pending[steps[0].client];
        ChainAfterAppend(s.events, e, requestId);
        LinkedExtends(Chain(s.events, requestId), e);
      }
    }
  }

  /**
   * The exact condition, on any run: a request's chain verifies if and only if at every write to it the last
   * stored hash still was the one the writing client had read.
   */
  lemma VerifiesExactlyWhenTipsAsRead(digest: HashInput -> string, steps: seq<Step>, requestId: string)
    requires IdealDigest(digest)
    ensures Verifies(digest, ChainAfter(digest, steps, requestId)) <==> TipsAsRead(digest, EMPTY_LOG, steps, requestId)
  {
    hide IdealDigest, Sound;
    var c := ChainAfter(digest, steps, requestId);
    ChainAfterSound(digest, steps, requestId);
    forall i | 0 <= i < |c| ensures Bad(digest, c, i) <==> !LinkedAt(c, i) {
      BadMeansUnlinked(digest, c, i);
    }
    LinkedExactlyWhenTipsAsRead(digest, EMPTY_LOG, steps, requestId);
    assert Linked(Chain([], requestId));
    assert Linked(c) <==> forall i :: 0 <= i < |c| ==> !Bad(digest, c, i);
  }

  /**
   * Events stored under the empty request id are not chained, so that verifying the empty id reports every one
   * of them but the first.
   */
  lemma BlankRequestIsReported(digest: HashInput -> string, steps: seq<Step>, i: nat)
    requires IdealDigest(digest) && i < |ChainAfter(digest, steps, "")|
    ensures Bad(digest, ChainAfter(digest, steps, ""), i) <==> i > 0
  {
    hide IdealDigest, ChainAfter;
    ChainAfterSound(digest, steps, "");
    ReportedExactlyWhereUnlinked(digest, steps, "", i);
  }

  // ----- A run that fails -----

  lemma {:induction false} RunSplits(digest: HashInput -> string, s: State, first: seq<Step>, second: seq<Step>)
    ensures Run(digest, s, first + second) == Run(digest, Run(digest, s, first), second)
    decreases |first|
  {
    if first == [] {
      assert first + second == second;
    } else {
      assert (first + second)[1..] == first[1..] + second;
      RunSplits(digest, Apply(digest, s, first[0]), first[1..], second);
    }
  }

  /** Two clients read the same request's tip, and then both write. */
  function Race(a: nat, x: AppendInput, xId: string, b: nat, y: AppendInput, yId: string, correlationId: string)
    : seq<Step>
  {
    [Read(a, x, xId, correlationId), Read(b, y, yId, correlationId), Write(a), Write(b)]
  }

  lemma RaceAppendsBoth(digest: HashInput -> string, s: State, a: nat, x: AppendInput, xId: string,
                        b: nat, y: AppendInput, yId: string, correlationId: string)
    requires a != b
    requires var tip := Previous(s.events, x.requestId);
             var (e, f) := (Prepared(digest, x, xId, correlationId, tip),
                            Prepared(digest, y, yId, correlationId, Previous(s.events, y.requestId)));
             !HasId(s.events, e.id) && !HasId(s.events, f.id) && e.id != f.id
    ensures Run(digest, s, Race(a, x, xId, b, y, yId, correlationId)).events
         == s.events + [Prepared(digest, x, xId, correlationId, Previous(s.events, x.requestId))]
                     + [Prepared(digest, y, yId, correlationId, Previous(s.events, y.requestId))]
  {
    hide Prepared, Previous;
    var steps := Race(a, x, xId, b, y, yId, correlationId);
    var s1 := Apply(digest, s, steps[0]);
    var s2 := Apply(digest, s1, steps[1]);
    var s3 := Apply(digest, s2, steps[2]);
    var e, f := s2.pending[a], s2.pending[b];
    assert s3.events == s.events + [e] && s3.pending[b] == f;
    assert !HasId(s3.events, f.id);
    assert steps[1..] == [steps[1], steps[2], steps[3]];
    assert steps[1..][1..] == [steps[2], steps[3]];
    assert steps[1..][1..][1..] == [steps[3]];
    assert Run(digest, s3, [steps[3]]) == Apply(digest, s3, steps[3]);
    assert Run(digest, s, steps) == Run(digest, s1, steps[1..]) == Run(digest, s2, steps[1..][1..]);
    assert Run(digest, s2, steps[1..][1..]) == Run(digest, s3, [steps[3]]);
  }

  /**
   * Whatever serialised appends came before, two clients that read the same tip and then both write leave a chain
   * in which verification reports the event written second, and no other.
   */
  lemma RacedRunIsReported(digest: HashInput -> string, steps: seq<Step>, requestId: string, a: nat, x: AppendInput,
                           xId: string, b: nat, y: AppendInput, yId: string, correlationId: string)
    requires IdealDigest(digest) && requestId != "" && a != b
    requires Serialised(digest, EMPTY_LOG, steps) && ReadableSteps(steps) && ReadableInput(x)
    requires x.requestId == y.requestId == Some(requestId)
    requires var events := Run(digest, EMPTY_LOG, steps).events;
             var idx, idy := if x.id.Some? then x.id.value else xId, if y.id.Some? then y.id.value else yId;
             !HasId(events, idx) && !HasId(events, idy) && idx != idy
    ensures var c := ChainAfter(digest, steps, requestId);
            var raced := ChainAfter(digest, steps + Race(a, x, xId, b, y, yId, correlationId), requestId);
            && |raced| == |c| + 2
            && forall i :: 0 <= i < |raced| ==> (Bad(digest, raced, i) <==> i == |c| + 1)
  {
    hide IdealDigest;
    var s := Run(digest, EMPTY_LOG, steps);
    var tip := Previous(s.events, Some(requestId));
    var e, f := Prepared(digest, x, xId, correlationId, tip), Prepared(digest, y, yId, correlationId, tip);
    RunSplits(digest, EMPTY_LOG, steps, Race(a, x, xId, b, y, yId, correlationId));
    RaceAppendsBoth(digest, s, a, x, xId, b, y, yId, correlationId);
    ChainAfterAppend(s.events, e, requestId);
    ChainAfterAppend(s.events + [e], f, requestId);
    RunKeepsChains(digest, EMPTY_LOG, steps);
    PreparedLinks(digest, s.events, x, xId, correlationId);
    PreparedLinks(digest, s.events, y, yId, correlationId);
    ChainAfterIsSound(digest, steps, requestId);
    ReadableGivesHashable(digest, Read(a, x, xId, correlationId), tip);
    SecondOfTwoIsReported(digest, Chain(s.events, requestId), e, f);
  }

  /** Two events that both link to the end of `c`, one behind the other: the second is reported. */
  lemma SecondOfTwoIsReported(digest: HashInput -> string, c: seq<AuditEvent>, e: AuditEvent, f: AuditEvent)
    requires IdealDigest(digest) && WellChained(digest, c)
    requires Links(digest, c, e) && Links(digest, c, f)
    requires AllHashable(c) && Hashable(e)
    ensures forall i :: 0 <= i < |c| + 2 ==> (Bad(digest, c + [e] + [f], i) <==> i == |c| + 1)
  {
    var all := c + [e] + [f];
    WellChainedExtends(digest, c, e);
    WellChainedVerifies(digest, c + [e]);
    forall i | 0 <= i < |c| + 1 ensures !Bad(digest, all, i) {
      BadIsLocal(digest, c + [e], all, i);
    }
    var tip := HashOf(Last(c));
    if !Bad(digest, all, |c| + 1) {
      assert SameButPrevious(InputOf(f, tip), InputOf(f, Some(e.body.hash)));
      TipDiffersFromNext(digest, c, e);
      assert false;
    }
  }

  lemma TipDiffersFromNext(digest: HashInput -> string, c: seq<AuditEvent>, e: AuditEvent)
    requires IdealDigest(digest) && WellChained(digest, c) && Links(digest, c, e)
    requires AllHashable(c) && Hashable(e)
    ensures OrEmpty(HashOf(Last(c))) != e.body.hash
  {
    hide Meaning, Hashable, WellFormedEvent, Readable, Links, IdealDigest;
    WellChainedExtends(digest, c, e);
    WellChainedVerifies(digest, c + [e]);
    var all, n := c + [e], |c|;
    if c != [] && c[n - 1].body.hash == e.body.hash {
      assert all[n - 1] == c[n - 1] && all[n] == e;
      assert WellFormedEvent(e) by { assert Hashable(e); HashableIsWellFormed([e]); assert WellFormedEvent([e][0]); }
      EqualHashesStepBack(digest, all, all, n - 1, n);
      assert false;
    }
    assert e.body.hash != "" by { DigestNotEmpty(digest, c, e); }
  }

  lemma DigestNotEmpty(digest: HashInput -> string, c: seq<AuditEvent>, e: AuditEvent)
    requires IdealDigest(digest) && Links(digest, c, e)
    ensures e.body.hash != ""
  {
  }
}
