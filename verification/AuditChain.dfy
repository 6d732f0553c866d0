/**
 * The hash chain of one request: what verification reports (export.ts), what concurrent appends keep,
 * and what the last hash binds.
 */
module AuditChain {
  import opened Basics
  import opened CanonicalJson
  import opened AuditDigest
  import opened AuditHash
  import opened AuditLog
  import opened Keyset
  import StableJson
  import Text

  // ----- verifyAuditChain -----

  datatype Mismatch = Mismatch(eventId: string, expectedHash: string, actualHash: string)

  /** The previous hash verification uses at position `i`: the stored hash before it, none at the start. */
  function PreviousHash(records: seq<AuditEvent>, i: nat): Option<string>
    requires i <= |records|
  {
    if i == 0 then None else Some(records[i - 1].body.hash)
  }

  function ExpectedAt(digest: HashInput -> string, records: seq<AuditEvent>, i: nat): string
    requires i < |records|
  {
    ExpectedHash(digest, records[i], PreviousHash(records, i))
  }

  predicate Bad(digest: HashInput -> string, records: seq<AuditEvent>, i: nat)
    requires i < |records|
  {
    records[i].body.hash != ExpectedAt(digest, records, i)
  }

  function MismatchAt(digest: HashInput -> string, records: seq<AuditEvent>, i: nat): Mismatch
    requires i < |records|
  {
    Mismatch(records[i].id, ExpectedAt(digest, records, i), records[i].body.hash)
  }

  function BadAt(digest: HashInput -> string, records: seq<AuditEvent>): nat -> bool
  {
    (i: nat) => i < |records| && Bad(digest, records, i)
  }

  /** The mismatches verification has collected after `n` records. */
  function Reported(digest: HashInput -> string, records: seq<AuditEvent>, n: nat): seq<Mismatch>
    requires n <= |records|
  {
    if n == 0 then []
    else
      Reported(digest, records, n - 1)
      + if Bad(digest, records, n - 1) then [MismatchAt(digest, records, n - 1)] else []
  }

  lemma {:induction false} ReportedAtBadPositions(digest: HashInput -> string, records: seq<AuditEvent>, n: nat)
    requires n <= |records|
    ensures var ps := Positions(BadAt(digest, records), n);
            && |Reported(digest, records, n)| == |ps|
            && forall k :: 0 <= k < |ps| ==>
                 ps[k] < n && Reported(digest, records, n)[k] == MismatchAt(digest, records, ps[k])
  {
    hide ExpectedAt;
    if n > 0 {
      ReportedAtBadPositions(digest, records, n - 1);
    }
  }

  /** The positions in the report are all bad positions and no good one. */
  lemma BadPositionsExact(digest: HashInput -> string, records: seq<AuditEvent>, i: nat)
    ensures i in Positions(BadAt(digest, records), |records|) <==> i < |records| && Bad(digest, records, i)
  {
    PositionsExact(BadAt(digest, records), |records|);
  }

  lemma ReportIsExact(digest: HashInput -> string, records: seq<AuditEvent>)
    ensures Reported(digest, records, |records|) == [] <==> Verifies(digest, records)
  {
    hide ExpectedAt;
    var ps := Positions(BadAt(digest, records), |records|);
    ReportedAtBadPositions(digest, records, |records|);
    if ps != [] {
      assert ps[0] in ps;
      BadPositionsExact(digest, records, ps[0]);
    }
    if !Verifies(digest, records) {
      var i: nat :| i < |records| && Bad(digest, records, i);
      BadPositionsExact(digest, records, i);
    }
  }

  /** `verifyAuditChain`: one mismatch for every bad position, in order, and nothing else. */
  method VerifyAuditChain(digest: HashInput -> string, records: seq<AuditEvent>)
    returns (verified: bool, mismatches: seq<Mismatch>)
    ensures var ps := Positions(BadAt(digest, records), |records|);
            && |mismatches| == |ps|
            && forall k :: 0 <= k < |ps| ==>
                 var i := ps[k];
                 && i < |records|
                 && mismatches[k].eventId == records[i].id && mismatches[k].actualHash == records[i].body.hash
                 && mismatches[k].expectedHash ==
                      ExpectedHash(digest, records[i], if i == 0 then None else Some(records[i - 1].body.hash))
    ensures verified <==> Verifies(digest, records)
  {
    hide ExpectedHash;
    var previousHash: Option<string> := None;
    mismatches := [];
    for n := 0 to |records|
      invariant previousHash == PreviousHash(records, n)
      invariant mismatches == Reported(digest, records, n)
    {
      var expectedHash := ExpectedHash(digest, records[n], previousHash);
      if expectedHash != records[n].body.hash {
        mismatches := mismatches + [Mismatch(records[n].id, expectedHash, records[n].body.hash)];
      }
      previousHash := Some(records[n].body.hash);
    }
    verified := |mismatches| == 0;
    ReportedAtBadPositions(digest, records, |records|);
    ReportIsExact(digest, records);
  }

  ghost predicate Verifies(digest: HashInput -> string, records: seq<AuditEvent>)
  {
    forall i :: 0 <= i < |records| ==> !Bad(digest, records, i)
  }

  /** A position is bad or not by its own record and the stored hash in front of it. */
  lemma BadIsLocal(digest: HashInput -> string, a: seq<AuditEvent>, b: seq<AuditEvent>, i: nat)
    requires i < |a| && i < |b| && a[i] == b[i] && PreviousHash(a, i) == PreviousHash(b, i)
    ensures Bad(digest, a, i) <==> Bad(digest, b, i)
  {
  }

  // ----- Tampering with one record -----

  /** What every event satisfies: its JSON fields are JSON values. */
  ghost predicate WellFormedEvent(e: AuditEvent)
  {
    WellFormed(e.body.before) && WellFormed(e.body.after) && WellFormed(e.body.reason)
  }

  /** Well-formed, and no free-text field holds the separator. */
  ghost predicate Hashable(e: AuditEvent)
  {
    && WellFormedEvent(e)
    && Text.Free('|', e.body.actor) && Text.Free('|', e.body.action) && Text.Free('|', e.body.target)
    && (e.body.requestId.Some? ==> Text.Free('|', e.body.requestId.value))
  }

  ghost predicate AllWellFormed(records: seq<AuditEvent>)
  {
    forall i :: 0 <= i < |records| ==> WellFormedEvent(records[i])
  }

  ghost predicate AllHashable(records: seq<AuditEvent>)
  {
    forall i :: 0 <= i < |records| ==> Hashable(records[i])
  }

  /** `?? ""` before hashing: an absent id and an empty one are the same. */
  ghost predicate SameRequest(a: Option<string>, b: Option<string>)
  {
    a == b || (a == None && b == Some("")) || (a == Some("") && b == None)
  }

  /** The two events agree in everything the hash is to protect, JSON up to the order of its keys. */
  ghost predicate SameContent(a: AuditEvent, b: AuditEvent)
  {
    && a.createdAt == b.createdAt
    && a.body.actor == b.body.actor
    && a.body.action == b.body.action
    && a.body.target == b.body.target
    && SameRequest(a.body.requestId, b.body.requestId)
    && Meaning(a.body.before) == Meaning(b.body.before)
    && Meaning(a.body.after) == Meaning(b.body.after)
    && Meaning(a.body.reason) == Meaning(b.body.reason)
    && a.body.sequence == b.body.sequence
  }

  /** The hash covers exactly the content and the previous hash. */
  lemma HashCoversContent(a: AuditEvent, b: AuditEvent, p: Option<string>, q: Option<string>)
    ensures SameHashedFields(InputOf(a, p), InputOf(b, q)) <==> SameContent(a, b) && OrEmpty(p) == OrEmpty(q)
  {
    hide Meaning, Stamp;
    StampIsRead(a.createdAt);
    StampIsRead(b.createdAt);
  }

  /** What is hashed: the event's own fields and the previous hash, in this order, with a `|` between any two. */
  lemma HashedText(hash: string -> string, e: AuditEvent, prevHash: Option<string>)
    ensures var b := e.body;
            var requestId := if b.requestId.Some? then b.requestId.value else "";
            var previous := if prevHash.Some? then prevHash.value else "";
            var before, after := StableJson.StableStringify(b.before), StableJson.StableStringify(b.after);
            var reason := StableJson.StableStringify(b.reason);
            ExpectedHash(Digest(hash), e, prevHash) ==
              hash(b.actor + ("|" + (b.action + ("|" + (b.target + ("|" + (requestId + ("|" + (before + ("|" + (after
                + ("|" + (reason + ("|" + (previous + ("|" + (Text.Decimal(b.sequence) + ("|" + Stamp(e.createdAt)
                ))))))))))))))))))
  {
    hide Payload, StableJson.StableStringify, Text.Decimal, Stamp;
    PayloadText(InputOf(e, prevHash));
  }

  lemma HashableIsReadable(e: AuditEvent, previous: Option<string>)
    requires Hashable(e) && Text.Free('|', OrEmpty(previous))
    ensures Readable(InputOf(e, previous))
  {
    hide WellFormed;
    StampHasNoBar(e.createdAt);
  }

  lemma WellFormedIsPlain(e: AuditEvent, previous: Option<string>)
    requires WellFormedEvent(e) && Text.Free('|', OrEmpty(previous))
    ensures Plain(InputOf(e, previous))
  {
    hide WellFormed;
    StampHasNoBar(e.createdAt);
  }

  lemma HashableIsWellFormed(records: seq<AuditEvent>)
    requires AllHashable(records)
    ensures AllWellFormed(records)
  {
    forall i | 0 <= i < |records| ensures WellFormedEvent(records[i]) { assert Hashable(records[i]); }
  }

  /** In a verified chain, every hash verification feeds on is a digest or absent. */
  lemma PreviousIsDigest(digest: HashInput -> string, records: seq<AuditEvent>, i: nat)
    requires IdealDigest(digest) && Verifies(digest, records) && i <= |records|
    ensures Text.Free('|', OrEmpty(PreviousHash(records, i)))
    ensures OrEmpty(PreviousHash(records, i)) == "" <==> i == 0
  {
    if i > 0 { assert !Bad(digest, records, i - 1); }
  }

  /**
   * Rewriting one record of a verified chain while keeping its stored hash: the report names that record
   * alone, and names it exactly when something hashed has changed.
   */
  lemma ContentChangeIsReportedThere(
      digest: HashInput -> string, records: seq<AuditEvent>, k: nat, changed: AuditEvent)
    requires IdealDigest(digest) && Verifies(digest, records) && k < |records|
    requires Hashable(records[k]) && WellFormedEvent(changed)
    requires changed.body.hash == records[k].body.hash
    ensures var after := records[k := changed];
            forall i :: 0 <= i < |after| ==>
              (Bad(digest, after, i) <==> i == k && !SameContent(records[k], changed))
  {
    hide Meaning, Hashable, WellFormedEvent, Readable, Plain, SameContent, SameHashedFields;
    var after := records[k := changed];
    forall i | 0 <= i < |after|
      ensures Bad(digest, after, i) <==> i == k && !SameContent(records[k], changed)
    {
      assert !Bad(digest, records, i);
      if i != k {
        BadIsLocal(digest, records, after, i);
      } else {
        var previous := PreviousHash(records, k);
        PreviousIsDigest(digest, records, k);
        HashableIsReadable(records[k], previous);
        WellFormedIsPlain(changed, previous);
        HashCoversContent(records[k], changed, previous, previous);
      }
    }
  }

  /** Rewriting one stored hash breaks that record and the one after it, and no other. */
  lemma HashChangeIsReportedTwice(digest: HashInput -> string, records: seq<AuditEvent>, k: nat, forged: string)
    requires IdealDigest(digest) && Verifies(digest, records) && k < |records|
    requires forged != records[k].body.hash
    ensures var after := records[k := records[k].(body := records[k].body.(hash := forged))];
            forall i :: 0 <= i < |after| ==> (Bad(digest, after, i) <==> i == k || i == k + 1)
  {
    var after := records[k := records[k].(body := records[k].body.(hash := forged))];
    forall i | 0 <= i < |after|
      ensures Bad(digest, after, i) <==> i == k || i == k + 1
    {
      assert !Bad(digest, records, i);
      if i == k {
        assert ExpectedAt(digest, after, k) == ExpectedAt(digest, records, k);
      } else if i == k + 1 {
        var a, b := InputOf(records[i], PreviousHash(records, i)), InputOf(records[i], PreviousHash(after, i));
        assert SameButPrevious(a, b);
      } else {
        BadIsLocal(digest, records, after, i);
      }
    }
  }

  // ----- The last hash binds the whole history -----

  /** The two chains hold the same hashed content and the same stored hashes up to position `n`. */
  ghost predicate SameHistory(a: seq<AuditEvent>, b: seq<AuditEvent>, n: nat)
    requires n <= |a| && n <= |b|
  {
    forall i :: 0 <= i < n ==> SameContent(a[i], b[i]) && a[i].body.hash == b[i].body.hash
  }

  /** Equal stored hashes: the two records agree, and so do the stored hashes in front of them. */
  lemma EqualHashesStepBack(digest: HashInput -> string, a: seq<AuditEvent>, b: seq<AuditEvent>, m: nat, n: nat)
    requires IdealDigest(digest) && Verifies(digest, a) && Verifies(digest, b)
    requires m < |a| && n < |b| && a[m].body.hash == b[n].body.hash
    requires Hashable(a[m]) && WellFormedEvent(b[n])
    ensures SameContent(a[m], b[n])
    ensures m == 0 <==> n == 0
    ensures m > 0 && n > 0 ==> a[m - 1].body.hash == b[n - 1].body.hash
  {
    hide Meaning, Hashable, WellFormedEvent, Readable, Plain, SameContent, SameHashedFields;
    assert !Bad(digest, a, m) && !Bad(digest, b, n);
    PreviousIsDigest(digest, a, m);
    PreviousIsDigest(digest, b, n);
    HashableIsReadable(a[m], PreviousHash(a, m));
    WellFormedIsPlain(b[n], PreviousHash(b, n));
    HashCoversContent(a[m], b[n], PreviousHash(a, m), PreviousHash(b, n));
  }

  lemma {:induction false} EqualHashesBindPrefix(
      digest: HashInput -> string, a: seq<AuditEvent>, b: seq<AuditEvent>, m: nat, n: nat)
    requires IdealDigest(digest) && Verifies(digest, a) && Verifies(digest, b)
    requires AllHashable(a) && AllWellFormed(b)
    requires m < |a| && n < |b| && a[m].body.hash == b[n].body.hash
    ensures m == n && SameHistory(a, b, m + 1)
  {
    hide Bad, SameContent, Hashable, WellFormedEvent;
    EqualHashesStepBack(digest, a, b, m, n);
    if m > 0 {
      EqualHashesBindPrefix(digest, a, b, m - 1, n - 1);
    }
  }

  /** Two verified chains with the same last stored hash have the same length and content throughout. */
  lemma TipHashBindsHistory(digest: HashInput -> string, a: seq<AuditEvent>, b: seq<AuditEvent>)
    requires IdealDigest(digest) && Verifies(digest, a) && Verifies(digest, b)
    requires AllHashable(a) && AllWellFormed(b)
    requires a != [] && b != [] && a[|a| - 1].body.hash == b[|b| - 1].body.hash
    ensures |a| == |b| && SameHistory(a, b, |a|)
  {
    EqualHashesBindPrefix(digest, a, b, |a| - 1, |b| - 1);
  }

  // ----- Appends to many requests, interleaved -----

  /** What the service leaves behind for one request: sequences 1..n, linked, and verified. */
  ghost predicate WellChained(digest: HashInput -> string, c: seq<AuditEvent>)
  {
    forall i {:trigger Links(digest, c[..i], c[i])} :: 0 <= i < |c| ==> Links(digest, c[..i], c[i])
  }

  /** `e` is what the service prepares after reading `c`. */
  ghost predicate Links(digest: HashInput -> string, c: seq<AuditEvent>, e: AuditEvent)
  {
    && e.body.sequence == |c| + 1
    && e.body.prevHash == HashOf(Last(c))
    && e.body.hash == ExpectedHash(digest, e, HashOf(Last(c)))
  }

  /** An append in two steps, as the service runs it: the prepared event waits between read and write. */
  datatype State = State(events: seq<AuditEvent>, pending: map<nat, AuditEvent>)

  const EMPTY_LOG := State([], map[])

  datatype Step =
    | Read(client: nat, input: AppendInput, freshId: string, correlationId: string)
    | Write(client: nat)

  function Request(e: AuditEvent): string
  {
    OrEmpty(e.body.requestId)
  }

  /** Appends to one request are serialised; nothing else is. */
  ghost predicate Enabled(s: State, step: Step)
  {
    match step
    case Read(client, input, _, _) =>
      client !in s.pending
      && (OrEmpty(input.requestId) != "" ==>
            forall c :: c in s.pending ==> Request(s.pending[c]) != OrEmpty(input.requestId))
    case Write(client) => client in s.pending
  }

  function Apply(digest: HashInput -> string, s: State, step: Step): State
  {
    match step
    case Read(client, input, freshId, correlationId) =>
      var e := Prepared(digest, input, freshId, correlationId, Previous(s.events, input.requestId));
      s.(pending := s.pending[client := e])
    case Write(client) =>
      if client !in s.pending then s
      else
        var appended := AppendUnique(s.events, s.pending[client]);
        State(if appended.Ok? then appended.value else s.events, s.pending - {client})
  }

  function Run(digest: HashInput -> string, s: State, steps: seq<Step>): State
    decreases |steps|
  {
    if steps == [] then s else Run(digest, Apply(digest, s, steps[0]), steps[1..])
  }

  ghost predicate Serialised(digest: HashInput -> string, s: State, steps: seq<Step>)
    decreases |steps|
  {
    steps != [] ==> Enabled(s, steps[0]) && Serialised(digest, Apply(digest, s, steps[0]), steps[1..])
  }

  ghost predicate ChainsHold(digest: HashInput -> string, s: State)
  {
    && (forall r: string :: r != "" ==> WellChained(digest, Chain(s.events, r)))
    && (forall c :: c in s.pending && Request(s.pending[c]) != "" ==>
          Links(digest, Chain(s.events, Request(s.pending[c])), s.pending[c]))
    && (forall c, d :: c in s.pending && d in s.pending && c != d && Request(s.pending[c]) != "" ==>
          Request(s.pending[c]) != Request(s.pending[d]))
  }

  lemma ChainAfterAppend(events: seq<AuditEvent>, e: AuditEvent, r: string)
    ensures e.body.requestId == Some(r) ==> Chain(events + [e], r) == Chain(events, r) + [e]
    ensures e.body.requestId != Some(r) ==> Chain(events + [e], r) == Chain(events, r)
  {
    FilterConcat(ForRequest(r), events, [e]);
  }

  lemma WellChainedExtends(digest: HashInput -> string, c: seq<AuditEvent>, e: AuditEvent)
    requires WellChained(digest, c) && Links(digest, c, e)
    ensures WellChained(digest, c + [e])
  {
    forall i | 0 <= i < |c| + 1 ensures Links(digest, (c + [e])[..i], (c + [e])[i]) {
      assert (c + [e])[..i] == c[..i];
      if i == |c| { assert c[..i] == c; }
    }
  }

  /** The tip read from a well-chained request carries the length of the chain as its sequence. */
  lemma PreparedLinks(digest: HashInput -> string, events: seq<AuditEvent>, input: AppendInput, freshId: string,
                      correlationId: string)
    requires OrEmpty(input.requestId) != "" && WellChained(digest, Chain(events, input.requestId.value))
    ensures var e := Prepared(digest, input, freshId, correlationId, Previous(events, input.requestId));
            Links(digest, Chain(events, input.requestId.value), e)
  {
    var c := Chain(events, input.requestId.value);
    var e := Prepared(digest, input, freshId, correlationId, Previous(events, input.requestId));
    if c != [] { assert Links(digest, c[..|c| - 1], c[|c| - 1]); }
    assert InputOf(e, HashOf(Last(c))) == InputOf(e.(body := e.body.(hash := "")), HashOf(Last(c)));
  }

  lemma StepKeepsChains(digest: HashInput -> string, s: State, step: Step)
    requires ChainsHold(digest, s) && Enabled(s, step)
    ensures ChainsHold(digest, Apply(digest, s, step))
  {
    var t := Apply(digest, s, step);
    match step
    case Read(client, input, freshId, correlationId) =>
      if OrEmpty(input.requestId) != "" {
        PreparedLinks(digest, s.events, input, freshId, correlationId);
      }
    case Write(client) =>
      var e := s.pending[client];
      if !HasId(s.events, e.id) {
        WriteKeepsChains(digest, s, client);
      }
  }

  lemma WriteKeepsChains(digest: HashInput -> string, s: State, client: nat)
    requires ChainsHold(digest, s) && client in s.pending && !HasId(s.events, s.pending[client].id)
    ensures ChainsHold(digest, Apply(digest, s, Write(client)))
  {
    hide Links, WellChained, Chain;
    var e := s.pending[client];
    var t := Apply(digest, s, Write(client));
    forall r: string | r != "" ensures WellChained(digest, Chain(t.events, r)) {
      ChainAfterAppend(s.events, e, r);
      if e.body.requestId == Some(r) {
        WellChainedExtends(digest, Chain(s.events, r), e);
      }
    }
    forall c | c in t.pending && Request(t.pending[c]) != ""
      ensures Links(digest, Chain(t.events, Request(t.pending[c])), t.pending[c])
    {
      ChainAfterAppend(s.events, e, Request(t.pending[c]));
    }
  }

  lemma WellChainedVerifies(digest: HashInput -> string, c: seq<AuditEvent>)
    requires WellChained(digest, c)
    ensures Verifies(digest, c)
    ensures forall i :: 0 <= i < |c| ==> c[i].body.sequence == i + 1
    ensures forall i :: 0 <= i < |c| ==> c[i].body.prevHash == PreviousHash(c, i)
  {
    forall i | 0 <= i < |c|
      ensures !Bad(digest, c, i) && c[i].body.sequence == i + 1 && c[i].body.prevHash == PreviousHash(c, i)
    {
      assert Links(digest, c[..i], c[i]);
      assert HashOf(Last(c[..i])) == PreviousHash(c, i);
    }
  }

  lemma {:induction false} RunKeepsChains(digest: HashInput -> string, s: State, steps: seq<Step>)
    requires ChainsHold(digest, s) && Serialised(digest, s, steps)
    ensures ChainsHold(digest, Run(digest, s, steps))
    decreases |steps|
  {
    if steps != [] {
      StepKeepsChains(digest, s, steps[0]);
      RunKeepsChains(digest, Apply(digest, s, steps[0]), steps[1..]);
    }
  }

  lemma {:induction false} RunKeepsIds(digest: HashInput -> string, s: State, steps: seq<Step>)
    requires UniqueIds(s.events)
    ensures UniqueIds(Run(digest, s, steps).events)
    decreases |steps|
  {
    if steps != [] {
      RunKeepsIds(digest, Apply(digest, s, steps[0]), steps[1..]);
    }
  }

  /** After any serialised interleaving from the empty log, every request's chain verifies as 1..n. */
  lemma EveryChainVerifies(digest: HashInput -> string, steps: seq<Step>, requestId: string)
    requires requestId != "" && Serialised(digest, EMPTY_LOG, steps)
    ensures var c := Chain(Run(digest, EMPTY_LOG, steps).events, requestId);
            && Verifies(digest, c)
            && (forall i :: 0 <= i < |c| ==> c[i].body.sequence == i + 1)
            && (forall i :: 0 <= i < |c| ==> c[i].body.prevHash == PreviousHash(c, i))
  {
    RunKeepsChains(digest, EMPTY_LOG, steps);
    WellChainedVerifies(digest, Chain(Run(digest, EMPTY_LOG, steps).events, requestId));
  }

  // ----- From what was appended to what the last hash binds -----

  ghost predicate ReadableSteps(steps: seq<Step>)
  {
    forall k :: 0 <= k < |steps| && steps[k].Read? ==> ReadableInput(steps[k].input)
  }

  ghost predicate WellFormedSteps(steps: seq<Step>)
  {
    forall k :: 0 <= k < |steps| && steps[k].Read? ==> WellFormedInput(steps[k].input)
  }

  function PreparedBy(digest: HashInput -> string, step: Step, previous: Option<AuditEvent>): AuditEvent
    requires step.Read?
  {
    Prepared(digest, step.input, step.freshId, step.correlationId, previous)
  }

  ghost predicate AllHold(s: State, p: AuditEvent -> bool)
  {
    (forall i :: 0 <= i < |s.events| ==> p(s.events[i])) && forall c :: c in s.pending ==> p(s.pending[c])
  }

  /** What holds of every event the service prepares holds of every event it has stored. */
  lemma {:induction false} RunKeeps(digest: HashInput -> string, s: State, steps: seq<Step>, p: AuditEvent -> bool)
    requires AllHold(s, p)
    requires forall k, previous :: 0 <= k < |steps| && steps[k].Read? ==> p(PreparedBy(digest, steps[k], previous))
    ensures AllHold(Run(digest, s, steps), p)
    decreases |steps|
  {
    if steps != [] {
      hide Prepared;
      forall k, previous | 0 <= k < |steps[1..]| && steps[1..][k].Read?
        ensures p(PreparedBy(digest, steps[1..][k], previous))
      {
        assert steps[1..][k] == steps[k + 1];
      }
      if steps[0].Read? {
        assert p(PreparedBy(digest, steps[0], Previous(s.events, steps[0].input.requestId)));
      }
      RunKeeps(digest, Apply(digest, s, steps[0]), steps[1..], p);
    }
  }

  lemma ChainKeeps(events: seq<AuditEvent>, requestId: string, p: AuditEvent -> bool)
    requires forall i :: 0 <= i < |events| ==> p(events[i])
    ensures forall i :: 0 <= i < |Chain(events, requestId)| ==> p(Chain(events, requestId)[i])
  {
    var c := Chain(events, requestId);
    forall i | 0 <= i < |c| ensures p(c[i]) {
      KeptIsMember(ForRequest(requestId), events, c[i]);
      var j :| 0 <= j < |events| && events[j] == c[i];
    }
  }

  /** The request's chain after a run from the empty log. */
  function ChainAfter(digest: HashInput -> string, steps: seq<Step>, requestId: string): seq<AuditEvent>
  {
    Chain(Run(digest, EMPTY_LOG, steps).events, requestId)
  }

  lemma ChainAfterVerifies(digest: HashInput -> string, steps: seq<Step>, requestId: string)
    requires requestId != "" && Serialised(digest, EMPTY_LOG, steps)
    ensures Verifies(digest, ChainAfter(digest, steps, requestId))
  {
    EveryChainVerifies(digest, steps, requestId);
  }

  lemma WellFormedGivesWellFormed(digest: HashInput -> string, step: Step, previous: Option<AuditEvent>)
    requires step.Read? && WellFormedInput(step.input)
    ensures WellFormedEvent(PreparedBy(digest, step, previous))
  {
    hide WellFormed, Prepared;
    PreparedCarriesInput(digest, step.input, step.freshId, step.correlationId, previous);
  }

  lemma ReadableGivesHashable(digest: HashInput -> string, step: Step, previous: Option<AuditEvent>)
    requires step.Read? && ReadableInput(step.input)
    ensures Hashable(PreparedBy(digest, step, previous))
  {
    hide WellFormed, Prepared;
    PreparedCarriesInput(digest, step.input, step.freshId, step.correlationId, previous);
  }

  lemma ChainAfterIsSound(digest: HashInput -> string, steps: seq<Step>, requestId: string)
    requires requestId != "" && Serialised(digest, EMPTY_LOG, steps) && ReadableSteps(steps)
    ensures Verifies(digest, ChainAfter(digest, steps, requestId))
    ensures AllHashable(ChainAfter(digest, steps, requestId))
  {
    hide Run, Serialised, Verifies, Hashable, Prepared, ReadableInput;
    ghost var p := (e: AuditEvent) => Hashable(e);
    forall k, previous | 0 <= k < |steps| && steps[k].Read? ensures p(PreparedBy(digest, steps[k], previous)) {
      ReadableGivesHashable(digest, steps[k], previous);
    }
    ChainAfterVerifies(digest, steps, requestId);
    RunKeeps(digest, EMPTY_LOG, steps, p);
    ChainKeeps(Run(digest, EMPTY_LOG, steps).events, requestId, p);
  }

  lemma ChainAfterIsWellFormed(digest: HashInput -> string, steps: seq<Step>, requestId: string)
    requires WellFormedSteps(steps)
    ensures AllWellFormed(ChainAfter(digest, steps, requestId))
  {
    hide Run, Prepared, WellFormedInput, WellFormedEvent;
    ghost var p := (e: AuditEvent) => WellFormedEvent(e);
    forall k, previous | 0 <= k < |steps| && steps[k].Read? ensures p(PreparedBy(digest, steps[k], previous)) {
      WellFormedGivesWellFormed(digest, steps[k], previous);
    }
    RunKeeps(digest, EMPTY_LOG, steps, p);
    ChainKeeps(Run(digest, EMPTY_LOG, steps).events, requestId, p);
  }

  /**
   * Whatever two logs went through: if appends were serialised and the texts appended to one of them hold no
   * separator, a request whose chains end in the same hash has the same history in both.
   */
  lemma EqualTipsEqualHistories(digest: HashInput -> string, s: seq<Step>, t: seq<Step>, requestId: string)
    requires IdealDigest(digest) && requestId != ""
    requires Serialised(digest, EMPTY_LOG, s) && ReadableSteps(s)
    requires Serialised(digest, EMPTY_LOG, t) && WellFormedSteps(t)
    requires ChainAfter(digest, s, requestId) != [] && ChainAfter(digest, t, requestId) != []
    requires HashOf(Last(ChainAfter(digest, s, requestId))) == HashOf(Last(ChainAfter(digest, t, requestId)))
    ensures var a, b := ChainAfter(digest, s, requestId), ChainAfter(digest, t, requestId);
            |a| == |b| && SameHistory(a, b, |a|)
  {
    hide IdealDigest, AllHashable, AllWellFormed, SameHistory, Verifies, Serialised, ReadableSteps, WellFormedSteps,
         ChainAfter;
    ChainAfterIsSound(digest, s, requestId);
    ChainAfterIsWellFormed(digest, t, requestId);
    ChainAfterVerifies(digest, t, requestId);
    TipHashBindsHistory(digest, ChainAfter(digest, s, requestId), ChainAfter(digest, t, requestId));
  }

  // ----- Removing records -----

  /** Dropping the end of a verified chain is never reported: what is left verifies. */
  lemma TruncationIsNotReported(digest: HashInput -> string, records: seq<AuditEvent>, n: nat)
    requires Verifies(digest, records) && n <= |records|
    ensures Verifies(digest, records[..n])
  {
    forall i | 0 <= i < n ensures !Bad(digest, records[..n], i) {
      assert !Bad(digest, records, i);
      BadIsLocal(digest, records, records[..n], i);
    }
  }

  /** Dropping any record but the last is reported, at the record that followed it and at no other. */
  lemma RemovalIsReportedAtSuccessor(digest: HashInput -> string, records: seq<AuditEvent>, k: nat)
    requires IdealDigest(digest) && Verifies(digest, records) && AllHashable(records)
    requires k + 1 < |records|
    ensures var after := records[..k] + records[k + 1..];
            forall i :: 0 <= i < |after| ==> (Bad(digest, after, i) <==> i == k)
  {
    hide Hashable, Meaning, Readable, Plain;
    var after := records[..k] + records[k + 1..];
    forall i | 0 <= i < |after| ensures Bad(digest, after, i) <==> i == k {
      if i < k {
        assert !Bad(digest, records, i);
        BadIsLocal(digest, records, after, i);
      } else if i > k {
        assert !Bad(digest, records, i + 1);
        assert after[i] == records[i + 1] && after[i - 1] == records[i];
        assert PreviousHash(after, i) == PreviousHash(records, i + 1);
      } else {
        SuccessorMissesRecord(digest, records, k);
        assert after[k] == records[k + 1] && PreviousHash(after, k) == PreviousHash(records, k);
      }
    }
  }

  lemma SuccessorMissesRecord(digest: HashInput -> string, records: seq<AuditEvent>, k: nat)
    requires IdealDigest(digest) && Verifies(digest, records) && AllHashable(records)
    requires k + 1 < |records|
    ensures records[k + 1].body.hash != ExpectedHash(digest, records[k + 1], PreviousHash(records, k))
  {
    hide Hashable, Meaning, Readable, Plain;
    var e := records[k + 1];
    assert !Bad(digest, records, k + 1) && !Bad(digest, records, k);
    assert SameButPrevious(InputOf(e, PreviousHash(records, k + 1)), InputOf(e, PreviousHash(records, k)));
    PreviousIsDigest(digest, records, k);
    PreviousIsDigest(digest, records, k + 1);
    if k > 0 && records[k - 1].body.hash == records[k].body.hash {
      HashableIsWellFormed(records);
      EqualHashesBindPrefix(digest, records, records, k - 1, k);
    }
  }
}
