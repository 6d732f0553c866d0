/**
 * The loop of `dsar audit tail` (audit-tail.ts). The events a drain leaves out are written by the end of that drain or
 * never, and a drain that is not cut short is complete from the watermark on. Which request the loop is about depends
 * on the `/audit` route (routes/audit.ts), which trims the id it is given.
 */
module AuditTailLoop {
  import opened Basics
  import opened AuditLog
  import opened AuditTail
  import opened AuditTailRun
  import opened CanonicalJson
  import opened Keyset
  import opened Sorting
  import Text

  // ----- What becomes of the events a drain leaves out -----

  function Above(requestId: string, f: AuditEvent): AuditEvent -> bool
  {
    (e: AuditEvent) => Mine(e, requestId) && Below(KeyOf(f), KeyOf(e))
  }

  /** No later poll obtains the event: it is older than the watermark, or below as many events as a drain takes. */
  ghost predicate OutOfReach(log: seq<AuditEvent>, requestId: string, w: Watermark, f: AuditEvent)
  {
    || (w.createdAfter.Some? && f.createdAt < w.createdAfter.value)
    || |Filter(Above(requestId, f), log)| >= POLL_PAGE_SIZE * POLL_DRAIN_PAGE_CAP
  }

  lemma OutOfReachIsNotPolled(history: seq<AuditEvent>, requestId: string, n0: nat, start: nat, n1: nat,
                              mark: Watermark, events: seq<AuditEvent>, capped: bool, f: AuditEvent)
    requires UniqueIds(history) && n0 <= start <= n1 <= |history|
    requires Polled(history[..start], history[..n1], requestId, mark.createdAfter, POLL_PAGE_SIZE, events, capped)
    requires OutOfReach(history[..n0], requestId, mark, f)
    ensures f !in events
  {
    if f in events {
      hide Keeps, Sorted;
      BelowOrder();
      var above := Filter(Above(requestId, f), history[..n0]);
      var all := above + [f];
      FilterKeepsIds(Above(requestId, f), history[..n0]);
      forall i | 0 <= i < |above| ensures above[i] in events && above[i] != f {
        KeptIsMember(Above(requestId, f), history[..n0], above[i]);
        var k :| 0 <= k < n0 && history[..n0][k] == above[i];
        assert history[..start][k] == above[i];
        assert Wanted(above[i], requestId, mark.createdAfter);
      }
      forall i, j | 0 <= i < j < |all| ensures all[i] != all[j] {
        if j < |above| { assert above[i].id != above[j].id; }
      }
      DistinctFits(all, events);
      assert false;
    }
  }

  lemma ReachShrinks(log: seq<AuditEvent>, later: seq<AuditEvent>, requestId: string, w: Watermark, v: Watermark,
                     f: AuditEvent)
    requires OutOfReach(log, requestId, w, f) && log <= later
    requires w.createdAfter.Some? ==> v.createdAfter.Some? && v.createdAfter.value >= w.createdAfter.value
    ensures OutOfReach(later, requestId, v, f)
  {
    assert later == log + later[|log|..];
    FilterConcat(Above(requestId, f), log, later[|log|..]);
  }

  lemma WatermarkRises(before: seq<AuditEvent>, mark: Watermark, written: seq<AuditEvent>, w: Watermark)
    requires Marks(before, mark) && Marks(written, w) && forall e :: e in before ==> e in written
    ensures mark.createdAfter.Some? ==> w.createdAfter.Some? && w.createdAfter.value >= mark.createdAfter.value
  {
  }

  /** What a poll finds in the log and does not leave written is out of reach from then on. */
  lemma LeftOutIsOutOfReach(history: seq<AuditEvent>, requestId: string, n0: nat, start: nat, n1: nat,
                            before: seq<AuditEvent>, mark: Watermark, events: seq<AuditEvent>, capped: bool,
                            written: seq<AuditEvent>, w: Watermark, f: AuditEvent)
    requires UniqueIds(history)
    requires PollOutcome(history, requestId, n0, start, n1, before, mark, events, capped, written, w)
    requires f in history[..start] && Mine(f, requestId) && f !in written
    ensures OutOfReach(history[..n1], requestId, w, f)
  {
    hide Keeps, Sorted;
    WrittenMembers(before, events);
    WatermarkRises(before, mark, written, w);
    if Wanted(f, requestId, mark.createdAfter) {
      var above := Filter(Above(requestId, f), history[..n1]);
      forall i | 0 <= i < |events| ensures events[i] in above {
        assert events[i] in events;
        assert Wanted(events[i], requestId, mark.createdAfter);
        KeptIsMember(Above(requestId, f), history[..n1], events[i]);
      }
      DistinctEvents(events);
      DistinctFits(events, above);
    }
  }

  lemma DistinctEvents(events: seq<AuditEvent>)
    requires UniqueIds(events)
    ensures Distinct(events)
  {
    forall i, j | 0 <= i < j < |events| ensures events[i] != events[j] { assert events[i].id != events[j].id; }
  }

  /** Behind every poll: what it found and did not leave written has not been written since, and is out of reach. */
  ghost predicate Settled(history: seq<AuditEvent>, requestId: string, starts: seq<nat>, marks: seq<nat>,
                          written: seq<AuditEvent>, visible: nat, w: Watermark)
    requires visible <= |history|
  {
    && |starts| == |marks|
    && (forall k :: 0 <= k < |starts| ==> starts[k] <= visible && marks[k] <= |written|)
    && forall k, f ::
         0 <= k < |starts| && f in history[..starts[k]] && Mine(f, requestId) && f !in written[..marks[k]] ==>
           f !in written && OutOfReach(history[..visible], requestId, w, f)
  }

  lemma PollKeepsSettled(history: seq<AuditEvent>, requestId: string, n0: nat, start: nat, n1: nat,
                         before: seq<AuditEvent>, mark: Watermark, starts: seq<nat>, marks: seq<nat>,
                         events: seq<AuditEvent>, capped: bool, written: seq<AuditEvent>, w: Watermark)
    requires UniqueIds(history)
    requires PollOutcome(history, requestId, n0, start, n1, before, mark, events, capped, written, w)
    requires Settled(history, requestId, starts, marks, before, n0, mark)
    ensures Settled(history, requestId, starts + [start], marks + [|written|], written, n1, w)
  {
    hide Polled, Marks, OutOfReach, OnlyMine, UniqueIds;
    var ss, ms := starts + [start], marks + [|written|];
    WrittenMembers(before, events);
    WatermarkRises(before, mark, written, w);
    forall k, f | 0 <= k < |ss| && f in history[..ss[k]] && Mine(f, requestId) && f !in written[..ms[k]]
      ensures f !in written && OutOfReach(history[..n1], requestId, w, f)
    {
      if k < |starts| {
        assert written[..marks[k]] == before[..marks[k]];
        OutOfReachIsNotPolled(history, requestId, n0, start, n1, mark, events, capped, f);
        assert history[..n0] <= history[..n1];
        ReachShrinks(history[..n0], history[..n1], requestId, mark, w, f);
      } else {
        assert written[..ms[k]] == written;
        LeftOutIsOutOfReach(history, requestId, n0, start, n1, before, mark, events, capped, written, w, f);
      }
    }
  }

  /** What is in the log when a drain starts is written by the end of that drain, or by no later poll either. */
  ghost predicate NowOrNever(history: seq<AuditEvent>, requestId: string, starts: seq<nat>, marks: seq<nat>,
                             written: seq<AuditEvent>)
  {
    && |starts| == |marks|
    && (forall k :: 0 <= k < |starts| ==> starts[k] <= |history| && marks[k] <= |written|)
    && forall k, f ::
         0 <= k < |starts| && f in history[..starts[k]] && Mine(f, requestId) && f in written ==>
           f in written[..marks[k]]
  }

  ghost predicate NoOlder(e: AuditEvent, written: seq<AuditEvent>)
  {
    forall g :: g in written ==> g.createdAt <= e.createdAt
  }

  function Before(marks: seq<nat>, k: nat): nat
    requires k <= |marks|
  {
    if k == 0 then 0 else marks[k - 1]
  }

  /**
   * A drain that is not cut short leaves written all that was in the log at its start and is no older than what had
   * been written before it, even if earlier drains were cut.
   */
  ghost predicate UncutDrainsComplete(history: seq<AuditEvent>, requestId: string, starts: seq<nat>, cuts: seq<bool>,
                                      marks: seq<nat>, written: seq<AuditEvent>)
  {
    && |starts| == |cuts| == |marks|
    && (forall k :: 0 <= k < |starts| ==> starts[k] <= |history| && marks[k] <= |written|)
    && forall k, e ::
         0 <= k < |starts| && !cuts[k] && e in history[..starts[k]] && Mine(e, requestId)
         && NoOlder(e, written[..Before(marks, k)]) ==>
           e in written[..marks[k]]
  }

  lemma PollKeepsUncutComplete(history: seq<AuditEvent>, requestId: string, n0: nat, start: nat, n1: nat,
                               before: seq<AuditEvent>, mark: Watermark, starts: seq<nat>, cuts: seq<bool>,
                               marks: seq<nat>, events: seq<AuditEvent>, capped: bool, written: seq<AuditEvent>,
                               w: Watermark)
    requires PollOutcome(history, requestId, n0, start, n1, before, mark, events, capped, written, w)
    requires UncutDrainsComplete(history, requestId, starts, cuts, marks, before)
    requires |before| == Before(marks, |marks|)
    ensures UncutDrainsComplete(history, requestId, starts + [start], cuts + [capped], marks + [|written|], written)
  {
    hide OnlyMine, UniqueIds, Sorted, LeftBelow, Keeps;
    var ss, cs, ms := starts + [start], cuts + [capped], marks + [|written|];
    WrittenMembers(before, events);
    forall k, e | 0 <= k < |ss| && !cs[k] && e in history[..ss[k]] && Mine(e, requestId)
                  && NoOlder(e, written[..Before(ms, k)])
      ensures e in written[..ms[k]]
    {
      if k < |starts| {
        assert written[..marks[k]] == before[..marks[k]];
        assert Before(ms, k) == Before(marks, k);
        assert written[..Before(marks, k)] == before[..Before(marks, k)];
      } else {
        assert written[..Before(ms, k)] == before && written[..ms[k]] == written;
        assert Wanted(e, requestId, mark.createdAfter);
      }
    }
  }

  // ----- The loop -----

  lemma WantedAtAll(log: seq<AuditEvent>, requestId: string, createdAfter: Option<int>)
    requires BlankIdWanted(log, requestId, createdAfter)
    ensures BlankIdWanted(log, requestId, None)
  {
    var e :| e in log && Wanted(e, requestId, createdAfter) && Text.Blank(e.id);
    assert Wanted(e, requestId, None);
  }

  lemma SettledIsNowOrNever(history: seq<AuditEvent>, requestId: string, starts: seq<nat>, marks: seq<nat>,
                            written: seq<AuditEvent>, visible: nat, w: Watermark)
    requires visible <= |history| && Settled(history, requestId, starts, marks, written, visible, w)
    ensures NowOrNever(history, requestId, starts, marks, written)
  {
    hide OutOfReach;
  }

  lemma MineStaysInLog(history: seq<AuditEvent>, requestId: string, m: nat, n: nat, written: seq<AuditEvent>)
    requires m <= n <= |history| && OnlyMine(history[..m], requestId, written)
    ensures OnlyMine(history[..n], requestId, written)
  {
    forall e | e in written ensures e in history[..n] {
      var i :| 0 <= i < m && history[..m][i] == e;
      assert history[..n][i] == e;
    }
  }

  lemma TailedGrows(history: seq<AuditEvent>, requestId: string, m: nat, n: nat)
    requires m <= n <= |history|
    ensures |Tailed(history[..m], requestId)| <= |Tailed(history[..n], requestId)|
  {
    ChainSplits(history, requestId, m, n);
  }

  /**
   * `runAuditTailLoop`, stopped after `maxPolls` polls (an abort stops it after fewer), or by a failing one. The
   * ghost results record the polls that were finished: `cuts` tells which drains stopped at the page cap with pages
   * left, and `polled` where the log stood at the end of the last.
   */
  method RunAuditTail(api: AuditApi, flag: string, maxPolls: nat)
    returns (written: seq<AuditEvent>, failed: bool, ghost starts: seq<nat>, ghost ends: seq<nat>,
             ghost marks: seq<nat>, ghost cuts: seq<bool>, ghost polled: nat)
    requires api.Valid() && flag != "" && Orderly(api.history, Text.Trim(flag))
    modifies api
    ensures api.Valid() && old(api.visible) <= polled <= api.visible && |starts| <= maxPolls
    ensures !failed ==> |starts| == maxPolls && polled == api.visible
    ensures PollsInOrder(old(api.visible), starts, ends, marks, polled, |written|)
    // A poll fails only behind a page that ends in a blank event id.
    ensures failed ==> BlankIdWanted(api.Log(), Text.Trim(flag), None)
    // No event is written twice, only events of the request are written, and never an older one after a newer.
    ensures UniqueIds(written) && OnlyMine(api.Log(), Text.Trim(flag), written) && TimeOrdered(written)
    ensures true !in cuts ==> EveryDrainComplete(api.history, Text.Trim(flag), starts, marks, written)
    ensures UncutDrainsComplete(api.history, Text.Trim(flag), starts, cuts, marks, written)
    ensures NowOrNever(api.history, Text.Trim(flag), starts, marks, written)
    // A drain is cut short only when more than fifty full pages match.
    ensures true in cuts ==> |Tailed(api.Log(), Text.Trim(flag))| > 10_000
    // When no drain sees the log change, the output is what the tail is about, in order.
    ensures true !in cuts && starts == ends != [] && Numbered(Tailed(api.history, Text.Trim(flag))) ==>
              written == Tailed(api.history[..polled], Text.Trim(flag))
  {
    hide PollsInOrder, EveryDrainComplete, Marks, OnlyMine, CaughtUp, AllWritten, Numbered, Tailed, Polled,
         TimeOrdered, Settled, UncutDrainsComplete, NowOrNever, BlankIdWanted, Orderly, UniqueIds;
    ghost var requestId := Text.Trim(flag);
    written, failed, starts, ends, marks, cuts := [], false, [], [], [], [];
    polled := api.visible;
    var w := Watermark(None, {});
    var polls := 0;
    OrderlyIds(api.history, requestId);
    NothingPolled(api.history, requestId, api.visible);
    NoPollsYet(api.visible);
    NothingSettled(api.history, requestId, api.visible);
    while polls < maxPolls && !failed
      invariant polls <= maxPolls && |starts| <= polls
      invariant api.Valid() && old(api.visible) <= polled <= api.visible
      invariant if failed then BlankIdWanted(api.Log(), requestId, None) else |starts| == polls && polled == api.visible
      invariant PollsInOrder(old(api.visible), starts, ends, marks, polled, |written|)
      invariant TailRun(api.history, requestId, polled, written, w, starts, ends, marks, true in cuts)
      invariant Settled(api.history, requestId, starts, marks, written, polled, w)
      invariant UncutDrainsComplete(api.history, requestId, starts, cuts, marks, written)
      invariant |written| == Before(marks, |marks|)
      decreases maxPolls - polls, !failed
    {
      polls := polls + 1;
      ghost var n0, before, mark := api.visible, written, w;
      var r;
      ghost var start, cut;
      r, start, cut := PollOnce(api, flag, w.createdAfter, POLL_PAGE_SIZE);
      match r
      case Err(_) =>
        failed := true;
        WantedAtAll(api.Log(), requestId, mark.createdAfter);
      case Ok(events) =>
        PollIsEmittable(api.history, requestId, n0, start, api.visible, before, mark, events, cut);
        written, w := EmitNew(events, written, w);
        PollKeepsRun(api.history, requestId, n0, start, api.visible, before, mark, starts, ends, marks, true in cuts,
                     events, cut, written, w);
        PollKeepsSettled(api.history, requestId, n0, start, api.visible, before, mark, starts, marks, events, cut,
                         written, w);
        PollKeepsUncutComplete(api.history, requestId, n0, start, api.visible, before, mark, starts, cuts, marks,
                               events, cut, written, w);
        OneMorePoll(old(api.visible), starts, ends, marks, n0, start, api.visible, |before|, |written|);
        starts, ends, marks, cuts := starts + [start], ends + [api.visible], marks + [|written|], cuts + [cut];
        polled := api.visible;
    }
    SettledIsNowOrNever(api.history, requestId, starts, marks, written, polled, w);
    MineStaysInLog(api.history, requestId, polled, api.visible, written);
    TailedGrows(api.history, requestId, polled, api.visible);
  }

  lemma OrderlyIds(history: seq<AuditEvent>, requestId: string)
    requires Orderly(history, requestId)
    ensures UniqueIds(history)
  {
  }

  lemma NothingSettled(history: seq<AuditEvent>, requestId: string, visible: nat)
    requires visible <= |history|
    ensures Settled(history, requestId, [], [], [], visible, Watermark(None, {}))
    ensures UncutDrainsComplete(history, requestId, [], [], [], [])
  {
  }

  // ----- What the flag names -----

  /**
   * The events the tail is about are the request's own if and only if the flag neither starts nor ends in white
   * space. A blank flag makes it about every event there is.
   */
  lemma FlagNamesItsRequestExactly(flag: string)
    requires flag != ""
    ensures (forall e :: Mine(e, Text.Trim(flag)) ==> e.body.requestId == Some(flag))
       <==> !Text.WhiteSpace(flag[0]) && !Text.WhiteSpace(flag[|flag| - 1])
    ensures Text.Blank(flag) ==> forall e :: Mine(e, Text.Trim(flag))
  {
    Text.TrimIsExact(flag);
    if Text.Trim(flag) != flag {
      var e := StrangerFor(flag);
      assert Mine(e, Text.Trim(flag));
    }
  }

  function StrangerFor(flag: string): (e: AuditEvent)
    requires Text.Trim(flag) != flag
    ensures Mine(e, Text.Trim(flag)) && e.body.requestId != Some(flag)
  {
    Entry(0, "event", AuditBody("", "", "", if Text.Trim(flag) == "" then None else Some(Text.Trim(flag)),
                                Null, Null, Null, "", None, 1))
  }

  /** Such a flag makes the tail write events of another request, or of none. */
  method TailWithMisreadFlag(flag: string) returns (written: seq<AuditEvent>)
    requires flag != "" && (Text.WhiteSpace(flag[0]) || Text.WhiteSpace(flag[|flag| - 1]))
    ensures |written| == 1 && written[0].body.requestId != Some(flag)
  {
    Text.TrimIsExact(flag);
    var stranger := StrangerFor(flag);
    var api := new AuditApi([stranger], 1, []);
    var failed;
    ghost var starts, ends, marks, cuts, polled;
    written, failed, starts, ends, marks, cuts, polled := RunAuditTail(api, flag, 1);
    assert api.Log() == [stranger];
    assert !Text.Blank(stranger.id) by { assert !Text.WhiteSpace(stranger.id[0]); }
    FilterFits(MineOf(Text.Trim(flag)), [stranger]);
    assert stranger in api.history[..starts[0]];
    assert stranger in written[..marks[0]];
    forall i | 0 <= i < |written| ensures written[i] == stranger { assert written[i] in written; }
    DistinctEvents(written);
    DistinctFits(written, [stranger]);
  }
}
