/** Which freshly computed clock segments still have to be stored (lifecycle/clock.ts). */
module ClockSegments {
  import opened Basics
  import Text

  datatype Segment = Segment(
    requestId: string,
    from: string,
    to: string,
    reason: string,
    countsTowardDeadline: bool,
    policyVersion: string,
    actor: string)

  function BoolText(b: bool): string
  {
    if b then "true" else "false"
  }

  function Signature(s: Segment): string
  {
    Text.Join('|', [s.from, s.to, s.reason, BoolText(s.countsTowardDeadline), s.policyVersion])
  }

  function Signatures(segments: seq<Segment>): set<string>
  {
    set i | 0 <= i < |segments| :: Signature(segments[i])
  }

  /** The first segment of each signature that is not known yet. */
  function Dedupe(computed: seq<Segment>, known: set<string>, requestId: string): seq<Segment>
  {
    if computed == [] then []
    else
      var s := computed[0];
      if Signature(s) in known then Dedupe(computed[1..], known, requestId)
      else [s.(requestId := requestId)] + Dedupe(computed[1..], known + {Signature(s)}, requestId)
  }

  method DedupeClockSegments(computed: seq<Segment>, existing: seq<Segment>, requestId: string)
    returns (pending: seq<Segment>)
    ensures pending == Dedupe(computed, Signatures(existing), requestId)
  {
    var existingSignatures := Signatures(existing);
    pending := [];
    var i := 0;
    while i < |computed|
      invariant i <= |computed|
      invariant pending + Dedupe(computed[i..], existingSignatures, requestId)
             == Dedupe(computed, Signatures(existing), requestId)
    {
      var segment := computed[i];
      var key := Signature(segment);
      assert computed[i..][0] == segment && computed[i..][1..] == computed[i + 1..];
      if key !in existingSignatures {
        pending := pending + [segment.(requestId := requestId)];
        existingSignatures := existingSignatures + {key};
      }
      i := i + 1;
    }
  }

  ghost predicate DistinctSignatures(segments: seq<Segment>)
  {
    forall i, j :: 0 <= i < j < |segments| ==> Signature(segments[i]) != Signature(segments[j])
  }

  lemma SignaturesOfCons(s: Segment, rest: seq<Segment>)
    ensures Signatures([s] + rest) == {Signature(s)} + Signatures(rest)
  {
    hide Signature;
    var all := [s] + rest;
    assert forall i :: 0 <= i < |rest| ==> rest[i] == all[i + 1];
    assert all[0] == s;
  }

  /** The pending segments are new, differ from one another, and together with the known ones cover the computed. */
  lemma {:induction false} DedupeIsExact(computed: seq<Segment>, known: set<string>, requestId: string)
    ensures var pending := Dedupe(computed, known, requestId);
            && DistinctSignatures(pending)
            && Signatures(pending) !! known
            && known + Signatures(pending) == known + Signatures(computed)
            && forall i :: 0 <= i < |pending| ==> pending[i].requestId == requestId
  {
    hide Signatures;
    if computed == [] {
      assert Dedupe(computed, known, requestId) == computed;
      NoSignatures();
    } else {
      var s, rest := computed[0], computed[1..];
      assert computed == [s] + rest;
      SignaturesOfCons(s, rest);
      if Signature(s) in known {
        DedupeIsExact(rest, known, requestId);
      } else {
        var more := Dedupe(rest, known + {Signature(s)}, requestId);
        DedupeIsExact(rest, known + {Signature(s)}, requestId);
        var t := s.(requestId := requestId);
        assert Signature(t) == Signature(s);
        SignaturesOfCons(t, more);
        ConsStaysDistinct(t, more);
      }
    }
  }

  /** `at` lists, in order, the computed segments that are stored: each the first of its signature. */
  ghost predicate Picks(at: seq<nat>, computed: seq<Segment>, pending: seq<Segment>, requestId: string)
  {
    && |at| == |pending|
    && (forall k, n :: 0 <= k < n < |at| ==> at[k] < at[n])
    && forall k :: 0 <= k < |at| ==>
         && at[k] < |computed| && pending[k] == computed[at[k]].(requestId := requestId)
         && forall j :: 0 <= j < at[k] ==> Signature(computed[j]) != Signature(computed[at[k]])
  }

  /** The pending segments are computed segments, in their order and unchanged but for the request they belong to. */
  lemma {:induction false} DedupeKeepsOrder(computed: seq<Segment>, known: set<string>, requestId: string)
    returns (at: seq<nat>)
    ensures Picks(at, computed, Dedupe(computed, known, requestId), requestId)
  {
    hide Signature, Picks, Signatures;
    if computed == [] {
      NothingPicked(requestId);
      at := [];
    } else {
      var s := computed[0];
      var rec := DedupeKeepsOrder(computed[1..], known + {Signature(s)}, requestId);
      DedupeIsExact(computed[1..], known + {Signature(s)}, requestId);
      at := Shifted(rec);
      PicksShift(computed, rec, Dedupe(computed[1..], known + {Signature(s)}, requestId), known + {Signature(s)},
                 requestId);
      if Signature(s) in known {
        assert known + {Signature(s)} == known;
      } else {
        PicksFirst(computed, at, Dedupe(computed[1..], known + {Signature(s)}, requestId), requestId);
        at := [0] + at;
      }
    }
  }

  lemma NothingPicked(requestId: string)
    ensures Picks([], [], [], requestId)
  {
  }

  function Shifted(at: seq<nat>): (r: seq<nat>)
    ensures |r| == |at| && forall k :: 0 <= k < |at| ==> r[k] == at[k] + 1
  {
    seq(|at|, (k: int) requires 0 <= k < |at| => at[k] + 1)
  }

  lemma PicksShift(computed: seq<Segment>, rec: seq<nat>, later: seq<Segment>, known: set<string>, requestId: string)
    requires computed != [] && Picks(rec, computed[1..], later, requestId)
    requires Signature(computed[0]) in known && Signatures(later) !! known
    ensures Picks(Shifted(rec), computed, later, requestId)
  {
    hide Signature;
    forall k | 0 <= k < |rec|
      ensures rec[k] + 1 < |computed| && later[k] == computed[rec[k] + 1].(requestId := requestId)
      ensures forall j :: 0 <= j < rec[k] + 1 ==> Signature(computed[j]) != Signature(computed[rec[k] + 1])
    {
      FirstStaysFirst(computed, later, rec, k, known, requestId);
    }
  }

  lemma PicksFirst(computed: seq<Segment>, at: seq<nat>, later: seq<Segment>, requestId: string)
    requires computed != [] && Picks(at, computed, later, requestId) && 0 !in at
    ensures Picks([0] + at, computed, [computed[0].(requestId := requestId)] + later, requestId)
  {
    hide Signature;
  }

  lemma FirstStaysFirst(computed: seq<Segment>, later: seq<Segment>, rec: seq<nat>, k: nat, known: set<string>,
                        requestId: string)
    requires computed != [] && k < |rec| && Picks(rec, computed[1..], later, requestId)
    requires Signature(computed[0]) in known && Signatures(later) !! known
    ensures rec[k] + 1 < |computed| && later[k] == computed[rec[k] + 1].(requestId := requestId)
    ensures forall j :: 0 <= j < rec[k] + 1 ==> Signature(computed[j]) != Signature(computed[rec[k] + 1])
  {
    var i := rec[k] + 1;
    assert Signature(later[k]) in Signatures(later);
    assert Signature(later[k]) == Signature(computed[i]);
    forall j | 0 <= j < i ensures Signature(computed[j]) != Signature(computed[i]) {
      if j > 0 { assert computed[1..][j - 1] == computed[j]; }
    }
  }

  lemma NoSignatures()
    ensures Signatures([]) == {}
  {
  }

  lemma ConsStaysDistinct(s: Segment, rest: seq<Segment>)
    requires DistinctSignatures(rest) && Signature(s) !in Signatures(rest)
    ensures DistinctSignatures([s] + rest)
  {
    hide Signature;
    assert forall i :: 0 <= i < |rest| ==> Signature(rest[i]) in Signatures(rest);
  }

  /** Once stored, the same computation has nothing left to store. */
  lemma StoredOnce(computed: seq<Segment>, known: set<string>, requestId: string)
    ensures Dedupe(computed, known + Signatures(Dedupe(computed, known, requestId)), requestId) == []
  {
    DedupeIsExact(computed, known, requestId);
    NothingNew(computed, known + Signatures(computed), requestId);
  }

  lemma {:induction false} NothingNew(computed: seq<Segment>, known: set<string>, requestId: string)
    requires Signatures(computed) <= known
    ensures Dedupe(computed, known, requestId) == []
  {
    if computed != [] {
      assert Signature(computed[0]) in Signatures(computed);
      forall x | x in Signatures(computed[1..]) ensures x in known {
        var i :| 0 <= i < |computed[1..]| && Signature(computed[1..][i]) == x;
        assert Signature(computed[i + 1]) in Signatures(computed);
      }
      NothingNew(computed[1..], known, requestId);
    }
  }

  // ----- What a signature says about its segment -----

  /** The two segments agree in all that the signature is made of. */
  ghost predicate SameSpan(s: Segment, t: Segment)
  {
    && s.from == t.from && s.to == t.to && s.reason == t.reason
    && s.countsTowardDeadline == t.countsTowardDeadline && s.policyVersion == t.policyVersion
  }

  /** The text holds `true` or `false` between two bars, or between its start and a bar. */
  ghost predicate HoldsBool(p: string)
  {
    || (exists b, rest :: p == BoolText(b) + (['|'] + rest))
    || (exists z, b, rest :: p == Behind(z, b, rest))
  }

  function Behind(z: string, b: bool, rest: string): string
  {
    z + (['|'] + (BoolText(b) + (['|'] + rest)))
  }

  ghost predicate SelfDelimiting(s: Segment)
  {
    && Text.Free('|', s.from) && Text.Free('|', s.to) && Text.Free('|', s.reason)
    && !HoldsBool(s.policyVersion)
  }

  function Head(s: Segment): string
  {
    Text.Join('|', [s.from, s.to, s.reason])
  }

  lemma SignatureParts(s: Segment)
    ensures Signature(s) == Head(s) + (['|'] + (BoolText(s.countsTowardDeadline) + (['|'] + s.policyVersion)))
    ensures Head(s) == s.from + (['|'] + (s.to + (['|'] + s.reason)))
  {
    var b := BoolText(s.countsTowardDeadline);
    Text.JoinSplit([s.from, s.to, s.reason], [b, s.policyVersion]);
    assert [s.from, s.to, s.reason] + [b, s.policyVersion] == [s.from, s.to, s.reason, b, s.policyVersion];
    Text.JoinUnfold('|', b, [s.policyVersion]);
    assert [b] + [s.policyVersion] == [b, s.policyVersion];
    Text.JoinUnfold('|', s.from, [s.to, s.reason]);
    assert [s.from] + [s.to, s.reason] == [s.from, s.to, s.reason];
    Text.JoinUnfold('|', s.to, [s.reason]);
    assert [s.to] + [s.reason] == [s.to, s.reason];
  }

  /** What a signature is made of. */
  lemma SignatureText(s: Segment)
    ensures var b := if s.countsTowardDeadline then "true" else "false";
            Signature(s) == (s.from + ("|" + (s.to + ("|" + s.reason)))) + ("|" + (b + ("|" + s.policyVersion)))
  {
    hide Signature, Head;
    SignatureParts(s);
  }

  lemma SignatureIdentifies(s: Segment, t: Segment)
    requires SelfDelimiting(s) && Signature(t) == Signature(s)
    ensures SameSpan(s, t)
  {
    hide Signature, Head, BoolText;
    var b, c := BoolText(s.countsTowardDeadline), BoolText(t.countsTowardDeadline);
    BoolTexts(s.countsTowardDeadline, t.countsTowardDeadline);
    SignatureParts(s);
    SignatureParts(t);
    HeadBarsOf(s);
    HeadBarsOf(t);
    var z := Text.CutFromLeft(Head(s), b + (['|'] + s.policyVersion), Head(t), c + (['|'] + t.policyVersion));
    if Head(s) == Head(t) {
      SameBoolSamePolicy(s, t);
      SameHead(s, t);
    } else {
      PolicyHoldsBool(s, t, z);
    }
  }

  lemma PolicyHoldsBool(s: Segment, t: Segment, z: string)
    requires BoolText(s.countsTowardDeadline) + (['|'] + s.policyVersion)
          == z + (['|'] + (BoolText(t.countsTowardDeadline) + (['|'] + t.policyVersion)))
    ensures HoldsBool(s.policyVersion)
  {
    hide BoolText;
    var b, c := BoolText(s.countsTowardDeadline), BoolText(t.countsTowardDeadline);
    BoolTexts(s.countsTowardDeadline, t.countsTowardDeadline);
    Text.FreeMeansNoBars(b);
    var y := Text.CutFromLeft(b, s.policyVersion, z, c + (['|'] + t.policyVersion));
    assert s.policyVersion == c + (['|'] + t.policyVersion)
           || s.policyVersion == Behind(y, t.countsTowardDeadline, t.policyVersion);
  }

  lemma BoolTexts(a: bool, b: bool)
    ensures Text.Free('|', BoolText(a)) && Text.Free('|', BoolText(b))
    ensures BoolText(a) == BoolText(b) <==> a == b
  {
    assert BoolText(true)[0] != BoolText(false)[0];
  }

  lemma HeadBarsOf(s: Segment)
    ensures Text.Bars(Head(s)) >= 2
    ensures Text.Bars(Head(s)) == 2 <==> Text.Free('|', s.from) && Text.Free('|', s.to) && Text.Free('|', s.reason)
  {
    Text.BarsOfThree(s.from, s.to, s.reason);
    Text.FreeMeansNoBars(s.from);
    Text.FreeMeansNoBars(s.to);
    Text.FreeMeansNoBars(s.reason);
  }

  lemma SameBoolSamePolicy(s: Segment, t: Segment)
    requires BoolText(s.countsTowardDeadline) + (['|'] + s.policyVersion)
          == BoolText(t.countsTowardDeadline) + (['|'] + t.policyVersion)
    ensures s.countsTowardDeadline == t.countsTowardDeadline && s.policyVersion == t.policyVersion
  {
    BoolTexts(s.countsTowardDeadline, t.countsTowardDeadline);
    SameFirst(BoolText(s.countsTowardDeadline), s.policyVersion, BoolText(t.countsTowardDeadline), t.policyVersion);
  }

  lemma SameFirst(a: string, x: string, b: string, y: string)
    requires Text.Free('|', a) && Text.Free('|', b) && a + (['|'] + x) == b + (['|'] + y)
    ensures a == b && x == y
  {
    assert a + ['|'] + x == a + (['|'] + x) && b + ['|'] + y == b + (['|'] + y);
    Text.SplitAtFirst('|', a, b, x, y);
  }

  lemma SameHead(s: Segment, t: Segment)
    requires Text.Free('|', s.from) && Text.Free('|', s.to) && Text.Free('|', s.reason) && Head(s) == Head(t)
    ensures s.from == t.from && s.to == t.to && s.reason == t.reason
  {
    hide Head, Text.Bars;
    SignatureParts(s);
    SignatureParts(t);
    HeadBarsOf(s);
    HeadBarsOf(t);
    SameFirst(s.from, s.to + (['|'] + s.reason), t.from, t.to + (['|'] + t.reason));
    SameFirst(s.to, s.reason, t.to, t.reason);
  }

  /** Any other segment shares its signature with a different one. */
  lemma SignatureIsShared(s: Segment) returns (t: Segment)
    requires !SelfDelimiting(s)
    ensures Signature(t) == Signature(s) && !SameSpan(s, t)
  {
    hide Signature, Head, BoolText;
    SignatureParts(s);
    ghost var p, q;
    if !Text.Free('|', s.from) {
      p, q := Text.CutAtBar(s.from);
      t := s.(from := p, to := q + (['|'] + s.to));
      assert (p + (['|'] + q)) + (['|'] + (s.to + (['|'] + s.reason)))
          == p + (['|'] + ((q + (['|'] + s.to)) + (['|'] + s.reason)));
    } else if !Text.Free('|', s.to) {
      p, q := Text.CutAtBar(s.to);
      t := s.(from := s.from + (['|'] + p), to := q);
      assert s.from + (['|'] + ((p + (['|'] + q)) + (['|'] + s.reason)))
          == (s.from + (['|'] + p)) + (['|'] + (q + (['|'] + s.reason)));
    } else if !Text.Free('|', s.reason) {
      p, q := Text.CutAtBar(s.reason);
      t := s.(to := s.to + (['|'] + p), reason := q);
      assert s.to + (['|'] + (p + (['|'] + q))) == (s.to + (['|'] + p)) + (['|'] + q);
    } else {
      t := ShiftBool(s);
    }
    SignatureParts(t);
  }

  lemma ShiftBool(s: Segment) returns (t: Segment)
    requires HoldsBool(s.policyVersion)
    ensures Signature(t) == Signature(s) && |t.reason| > |s.reason|
  {
    hide Signature, Head, BoolText, Behind;
    var c := BoolText(s.countsTowardDeadline);
    if b, rest :| s.policyVersion == BoolText(b) + (['|'] + rest) {
      t := s.(reason := s.reason + (['|'] + c), countsTowardDeadline := b, policyVersion := rest);
      ShiftedSignature(s, t, c);
    } else {
      var z, b, rest :| s.policyVersion == Behind(z, b, rest);
      var d := c + (['|'] + z);
      t := s.(reason := s.reason + (['|'] + d), countsTowardDeadline := b, policyVersion := rest);
      assert c + (['|'] + Behind(z, b, rest)) == d + (['|'] + (BoolText(b) + (['|'] + rest))) by {
        BehindText(z, b, rest);
      }
      ShiftedSignature(s, t, d);
    }
  }

  lemma BehindText(z: string, b: bool, rest: string)
    ensures Behind(z, b, rest) == z + (['|'] + (BoolText(b) + (['|'] + rest)))
  {
  }

  /** Moving text from behind the reason into it leaves the signature as it is. */
  lemma ShiftedSignature(s: Segment, t: Segment, d: string)
    requires t.from == s.from && t.to == s.to && t.reason == s.reason + (['|'] + d)
    requires BoolText(s.countsTowardDeadline) + (['|'] + s.policyVersion)
          == d + (['|'] + (BoolText(t.countsTowardDeadline) + (['|'] + t.policyVersion)))
    ensures Signature(t) == Signature(s)
  {
    hide Signature, Head, BoolText;
    SignatureParts(s);
    SignatureParts(t);
    ShiftInHead(s, t, d);
  }

  lemma ShiftInHead(s: Segment, t: Segment, d: string)
    requires t.from == s.from && t.to == s.to && t.reason == s.reason + (['|'] + d)
    ensures Head(t) == Head(s) + (['|'] + d)
  {
    hide Signature, BoolText, Head;
    SignatureParts(s);
    SignatureParts(t);
    assert t.to + (['|'] + t.reason) == (s.to + (['|'] + s.reason)) + (['|'] + d);
  }

  /** The exact condition, segment by segment: its signature identifies it if and only if it is self-delimiting. */
  lemma SignatureIdentifiesExactly(s: Segment)
    ensures (forall t :: Signature(t) == Signature(s) ==> SameSpan(s, t)) <==> SelfDelimiting(s)
  {
    hide Signature, SameSpan, SelfDelimiting;
    if SelfDelimiting(s) {
      forall t | Signature(t) == Signature(s) ensures SameSpan(s, t) { SignatureIdentifies(s, t); }
    } else {
      var t := SignatureIsShared(s);
    }
  }

  /** Every computed segment that is self-delimiting is then stored: as it was known before, or as pending. */
  lemma DedupeCoversSegment(computed: seq<Segment>, existing: seq<Segment>, requestId: string, i: nat)
    requires i < |computed| && SelfDelimiting(computed[i])
    ensures var stored := existing + Dedupe(computed, Signatures(existing), requestId);
            exists k :: 0 <= k < |stored| && SameSpan(computed[i], stored[k])
  {
    hide Signature, SelfDelimiting;
    var pending := Dedupe(computed, Signatures(existing), requestId);
    var stored := existing + pending;
    DedupeIsExact(computed, Signatures(existing), requestId);
    assert Signature(computed[i]) in Signatures(computed);
    if Signature(computed[i]) in Signatures(existing) {
      var k :| 0 <= k < |existing| && Signature(existing[k]) == Signature(computed[i]);
      assert stored[k] == existing[k];
      SignatureIdentifies(computed[i], stored[k]);
    } else {
      var k :| 0 <= k < |pending| && Signature(pending[k]) == Signature(computed[i]);
      assert stored[|existing| + k] == pending[k];
      SignatureIdentifies(computed[i], stored[|existing| + k]);
    }
  }

  /** A segment that shares the signature of one before it is lost, however different it is. */
  lemma SharedSignatureIsLost(s: Segment, t: Segment, requestId: string)
    requires Signature(t) == Signature(s)
    ensures Dedupe([s, t], {}, requestId) == [s.(requestId := requestId)]
  {
    hide Signature;
    assert [s, t][1..] == [t] && [t][1..] == [];
    var none: set<string> := {};
    assert none + {Signature(s)} == {Signature(s)};
    assert Dedupe([t], {Signature(s)}, requestId) == Dedupe([], {Signature(s)}, requestId) == [];
  }
}
