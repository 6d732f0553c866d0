/** Whole runs of the tail: every event once, nothing left behind, and the chain in order. */
module AuditTailRun {
  import opened Basics
  import opened AuditChain
  import opened AuditDigest
  import opened AuditHash
  import opened AuditLog
  import opened AuditTail
  import opened Keyset
  import opened Sorting

  /** Everything of the request strictly older than the watermark has been written. */
  ghost predicate CaughtUp(log: seq<AuditEvent>, requestId: string, written: seq<AuditEvent>, w: Watermark)
  {
    w.createdAfter.Some? ==>
      forall e :: e in log && Mine(e, requestId) && e.createdAt < w.createdAfter.value ==> e in written
  }

  ghost predicate AllWritten(log: seq<AuditEvent>, requestId: string, written: seq<AuditEvent>)
  {
    forall e :: e in log && Mine(e, requestId) ==> e in written
  }

  ghost predicate OnlyMine(log: seq<AuditEvent>, requestId: string, written: seq<AuditEvent>)
  {
    forall e :: e in written ==> e in log && Mine(e, requestId)
  }

  /** What one poll has to hand over: the events it wrote, and where the log stood. */
  ghost predicate PollOutcome(history: seq<AuditEvent>, requestId: string, n0: nat, start: nat, n1: nat,
                              before: seq<AuditEvent>, mark: Watermark, events: seq<AuditEvent>, capped: bool,
                              written: seq<AuditEvent>, w: Watermark)
  {
    && n0 <= start <= n1 <= |history|
    && Polled(history[..start], history[..n1], requestId, mark.createdAfter, POLL_PAGE_SIZE, events, capped)
    && Marks(before, mark) && Marks(written, w)
    && OnlyMine(history[..n0], requestId, before)
    && written == before + Filter(NotIn(before), events)
  }

  lemma WrittenMembers(before: seq<AuditEvent>, events: seq<AuditEvent>)
    ensures forall e :: e in before + Filter(NotIn(before), events) <==> e in before || e in events
  {
    FilterMembers(NotIn(before), events);
  }

  /** No event is written twice, whatever the page cap did. */
  lemma PollWritesOnce(history: seq<AuditEvent>, requestId: string, n0: nat, start: nat, n1: nat,
                       before: seq<AuditEvent>, mark: Watermark, events: seq<AuditEvent>, capped: bool,
                       written: seq<AuditEvent>, w: Watermark)
    requires UniqueIds(history) && UniqueIds(before)
    requires PollOutcome(history, requestId, n0, start, n1, before, mark, events, capped, written, w)
    ensures UniqueIds(written) && OnlyMine(history[..n1], requestId, written)
  {
    WrittenMembers(before, events);
    var news := Filter(NotIn(before), events);
    FilterMembers(NotIn(before), events);
    FilterKeepsDistinct(NotIn(before), events);
    forall e | e in written ensures e in history[..n1] && Mine(e, requestId) {
      if e in before {
        var i :| 0 <= i < n0 && history[i] == e;
        assert history[..n1][i] == e;
      }
    }
    assert Distinct(written) by {
      forall i, j | 0 <= i < j < |written| ensures written[i] != written[j] {
        if i < |before| <= j { assert written[j] in news; }
      }
    }
    forall i | 0 <= i < |written| ensures written[i] in history {
      assert written[i] in written;
    }
    UniqueIdsOfPart(written, history);
  }

  /** A poll that was not cut short writes everything the log held at its first fetch, and stays caught up. */
  lemma PollCatchesUp(history: seq<AuditEvent>, requestId: string, n0: nat, start: nat, n1: nat,
                      before: seq<AuditEvent>, mark: Watermark, events: seq<AuditEvent>,
                      written: seq<AuditEvent>, w: Watermark)
    requires Orderly(history, requestId)
    requires PollOutcome(history, requestId, n0, start, n1, before, mark, events, false, written, w)
    requires CaughtUp(history[..n0], requestId, before, mark)
    ensures AllWritten(history[..start], requestId, written)
    ensures CaughtUp(history[..n1], requestId, written, w)
  {
    WrittenMembers(before, events);
    assert forall e :: e in history[..start] && Mine(e, requestId) ==> e in written;
    forall e | e in history[..n1] && Mine(e, requestId) && w.createdAfter.Some? && e.createdAt < w.createdAfter.value
      ensures e in written
    {
      var newest :| newest in written && newest.createdAt == w.createdAfter.value;
      var f := NoNewerThanStart(history, requestId, n0, start, before, events, newest);
    }
  }

  lemma NoNewerThanStart(history: seq<AuditEvent>, requestId: string, n0: nat, start: nat,
                         before: seq<AuditEvent>, events: seq<AuditEvent>, e: AuditEvent) returns (f: AuditEvent)
    requires n0 <= start <= |history| && OnlyMine(history[..n0], requestId, before)
    requires events != [] ==>
               exists f :: f in history[..start] && Mine(f, requestId)
                           && forall e :: e in events ==> e.createdAt <= f.createdAt
    requires e in before || e in events
    ensures f in history[..start] && Mine(f, requestId) && f.createdAt >= e.createdAt
  {
    if e in before {
      f := e;
      var i :| 0 <= i < n0 && history[i] == e;
      assert history[..start][i] == e;
    } else {
      f :| f in history[..start] && Mine(f, requestId) && forall e :: e in events ==> e.createdAt <= f.createdAt;
    }
  }

  // ----- A poll of one snapshot appends exactly the new part of the chain -----

  /** What serialised appends leave: the sequences of the request count up from one. */
  ghost predicate Numbered(chain: seq<AuditEvent>)
  {
    forall i :: 0 <= i < |chain| ==> chain[i].body.sequence == i + 1
  }

  lemma {:induction false} ChainIsOrdered(history: seq<AuditEvent>, requestId: string, n: nat)
    requires Orderly(history, requestId) && n <= |history| && Numbered(Tailed(history, requestId))
    ensures StrictlySorted(OldestFirst, Tailed(history[..n], requestId))
    ensures Tailed(history[..n], requestId) <= Tailed(history, requestId)
  {
    var all, part := Tailed(history, requestId), Tailed(history[..n], requestId);
    FilterConcat(MineOf(requestId), history[..n], history[n..]);
    assert history == history[..n] + history[n..];
    forall i, j | 0 <= i < j < |part| ensures OldestFirst(part[i], part[j]) {
      FilterKeepsTimeOrder(history, requestId, i, j);
      assert part[i] == all[i] && part[j] == all[j];
    }
  }

  lemma {:induction false} FilterKeepsTimeOrder(history: seq<AuditEvent>, requestId: string, i: nat, j: nat)
    requires Orderly(history, requestId) && i < j < |Tailed(history, requestId)|
    ensures Tailed(history, requestId)[i].createdAt <= Tailed(history, requestId)[j].createdAt
  {
    var rest := Tailed(history[1..], requestId);
    assert Orderly(history[1..], requestId);
    if !Mine(history[0], requestId) {
      FilterKeepsTimeOrder(history[1..], requestId, i, j);
    } else if i > 0 {
      FilterKeepsTimeOrder(history[1..], requestId, i - 1, j - 1);
    } else {
      KeptIsMember(MineOf(requestId), history[1..], rest[j - 1]);
      var k :| 0 <= k < |history[1..]| && history[1..][k] == rest[j - 1];
      assert history[k + 1] == rest[j - 1];
    }
  }

  /** Polling one snapshot in order: what was the chain so far becomes the chain of the snapshot. */
  lemma SnapshotPollExtendsChain(history: seq<AuditEvent>, requestId: string, n0: nat, n1: nat,
                                 before: seq<AuditEvent>, mark: Watermark, events: seq<AuditEvent>,
                                 written: seq<AuditEvent>, w: Watermark)
    requires Orderly(history, requestId) && Numbered(Tailed(history, requestId))
    requires PollOutcome(history, requestId, n0, n1, n1, before, mark, events, false, written, w)
    requires before == Tailed(history[..n0], requestId)
    ensures written == Tailed(history[..n1], requestId)
  {
    hide Tailed, Polled, Marks;
    PolledIsWantedChain(history, requestId, n1, mark.createdAfter, events);
    FreshIsAdded(history, requestId, n0, n1, before, mark);
  }

  function Admits(requestId: string, createdAfter: Option<int>): AuditEvent -> bool
  {
    (e: AuditEvent) => Wanted(e, requestId, createdAfter)
  }

  /** The poll obtains the part of the snapshot's chain that the watermark admits, in chain order. */
  lemma PolledIsWantedChain(history: seq<AuditEvent>, requestId: string, n: nat, createdAfter: Option<int>,
                            events: seq<AuditEvent>)
    requires Orderly(history, requestId) && Numbered(Tailed(history, requestId)) && n <= |history|
    requires Polled(history[..n], history[..n], requestId, createdAfter, POLL_PAGE_SIZE, events, false)
    ensures events == Filter(Admits(requestId, createdAfter), Tailed(history[..n], requestId))
  {
    var now := Tailed(history[..n], requestId);
    var expected := Filter(Admits(requestId, createdAfter), now);
    ChainIsOrdered(history, requestId, n);
    FilterStrictlySorted(Admits(requestId, createdAfter), now);
    EventsStrictlySorted(history, requestId, n, events);
    forall e ensures e in events <==> e in expected {
      KeptIsMember(MineOf(requestId), history[..n], e);
      KeptIsMember(Admits(requestId, createdAfter), now, e);
    }
    StrictlySortedUnique(OldestFirst, events, expected);
  }

  /** Of the admitted part, what was not written before is exactly what was added since. */
  lemma FreshIsAdded(history: seq<AuditEvent>, requestId: string, n0: nat, n1: nat,
                     before: seq<AuditEvent>, mark: Watermark)
    requires Orderly(history, requestId) && n0 <= n1 <= |history|
    requires before == Tailed(history[..n0], requestId) && Marks(before, mark)
    ensures var now := Tailed(history[..n1], requestId);
            before + Filter(NotIn(before), Filter(Admits(requestId, mark.createdAfter), now)) == now
  {
    hide Chain, Marks, Orderly, Wanted;
    var now, added := Tailed(history[..n1], requestId), Tailed(history[n0..n1], requestId);
    var admitted := Admits(requestId, mark.createdAfter);
    ChainSplits(history, requestId, n0, n1);
    AddedAreFresh(history, requestId, n0, n1, before, mark);
    FilterTwice(admitted, NotIn(before), now);
    FilterConcat(Both(admitted, NotIn(before)), before, added);
    FilterNone(Both(admitted, NotIn(before)), before);
    FilterAll(Both(admitted, NotIn(before)), added);
  }

  lemma ChainSplits(history: seq<AuditEvent>, requestId: string, m: nat, n: nat)
    requires m <= n <= |history|
    ensures Tailed(history[..n], requestId) == Tailed(history[..m], requestId) + Tailed(history[m..n], requestId)
  {
    assert history[..n] == history[..m] + history[m..n];
    FilterConcat(MineOf(requestId), history[..m], history[m..n]);
  }

  lemma {:induction false} FilterStrictlySorted(keep: AuditEvent -> bool, s: seq<AuditEvent>)
    requires StrictlySorted(OldestFirst, s)
    ensures StrictlySorted(OldestFirst, Filter(keep, s))
  {
    if s != [] {
      var f := Filter(keep, s[1..]);
      FilterStrictlySorted(keep, s[1..]);
      FilterMembers(keep, s[1..]);
      forall i | 0 <= i < |f| ensures OldestFirst(s[0], f[i]) {
        assert f[i] in f;
        var k :| 0 <= k < |s[1..]| && s[1..][k] == f[i];
        assert s[k + 1] == f[i];
      }
    }
  }

  lemma EventsStrictlySorted(history: seq<AuditEvent>, requestId: string, n: nat, events: seq<AuditEvent>)
    requires n <= |history| && StrictlySorted(OldestFirst, Tailed(history[..n], requestId))
    requires Sorted(OldestFirst, events) && UniqueIds(events)
    requires forall e :: e in events ==> e in history[..n] && Mine(e, requestId)
    ensures StrictlySorted(OldestFirst, events)
  {
    var c := Tailed(history[..n], requestId);
    FilterMembers(MineOf(requestId), history[..n]);
    forall i, j | 0 <= i < j < |events| ensures OldestFirst(events[i], events[j]) {
      assert events[i] in c && events[j] in c;
      var k :| 0 <= k < |c| && c[k] == events[i];
      var m :| 0 <= m < |c| && c[m] == events[j];
      assert events[i].id != events[j].id;
    }
  }

  lemma AddedAreFresh(history: seq<AuditEvent>, requestId: string, n0: nat, n1: nat,
                      before: seq<AuditEvent>, mark: Watermark)
    requires Orderly(history, requestId) && n0 <= n1 <= |history|
    requires before == Tailed(history[..n0], requestId) && Marks(before, mark)
    ensures forall e :: e in Tailed(history[n0..n1], requestId) ==>
              e !in before && Wanted(e, requestId, mark.createdAfter)
  {
    FilterMembers(MineOf(requestId), history[..n0]);
    FilterMembers(MineOf(requestId), history[n0..n1]);
    forall e | e in Tailed(history[n0..n1], requestId)
      ensures e !in before && Wanted(e, requestId, mark.createdAfter)
    {
      var j :| 0 <= j < n1 - n0 && history[n0..n1][j] == e;
      assert history[n0 + j] == e;
      if mark.createdAfter.Some? {
        var f :| f in before && f.createdAt == mark.createdAfter.value;
      }
    }
  }

  // ----- The polling loop -----

  /** The events of a poll meet what the output loop needs. */
  lemma PollIsEmittable(history: seq<AuditEvent>, requestId: string, n0: nat, start: nat, n1: nat,
                        before: seq<AuditEvent>, mark: Watermark, events: seq<AuditEvent>, capped: bool)
    requires UniqueIds(history) && n0 <= start <= n1 <= |history|
    requires OnlyMine(history[..n0], requestId, before)
    requires Polled(history[..start], history[..n1], requestId, mark.createdAfter, POLL_PAGE_SIZE, events, capped)
    ensures Sorted(OldestFirst, events) && Distinct(events) && SameIdSameEvent(before + events)
    ensures mark.createdAfter.Some? ==> forall e :: e in events ==> e.createdAt >= mark.createdAfter.value
  {
    forall i, j | 0 <= i < j < |events| ensures events[i] != events[j] {
      assert events[i].id != events[j].id;
    }
    forall e | e in before + events ensures e in history {
      assert e in before || e in events;
    }
  }

  lemma {:induction false} FilterCount<T>(p: T -> bool, q: T -> bool, s: seq<T>)
    requires forall x :: p(x) ==> q(x)
    ensures |Filter(p, s)| <= |Filter(q, s)|
  {
    if s != [] { FilterCount(p, q, s[1..]); }
  }

  lemma CappedMeansMany(log: seq<AuditEvent>, requestId: string, createdAfter: Option<int>)
    ensures |Filter(Keeps(TailQuery(requestId, createdAfter)), log)| <= |Tailed(log, requestId)|
  {
    hide Keeps;
    forall e | Keeps(TailQuery(requestId, createdAfter))(e) ensures MineOf(requestId)(e) {
      TailKeeps(e, requestId, createdAfter);
    }
    FilterCount(Keeps(TailQuery(requestId, createdAfter)), MineOf(requestId), log);
  }

  /**
   * The record of a run: poll `k` had `starts[k]` events in the log at its first fetch and `ends[k]` at its
   * last, and `marks[k]` events written at its end; the polls follow one another on a log that only grows.
   */
  ghost predicate PollsInOrder(from: nat, starts: seq<nat>, ends: seq<nat>, marks: seq<nat>, visible: nat, count: nat)
  {
    && |starts| == |ends| == |marks|
    && visible == (if ends == [] then from else ends[|ends| - 1])
    && (forall k :: 0 <= k < |starts| ==> starts[k] <= ends[k] <= visible && marks[k] <= count)
    && (forall k :: 0 <= k < |starts| ==> (if k == 0 then from else ends[k - 1]) <= starts[k])
  }

  /** Every event in the log when a drain starts has been written when it ends. */
  ghost predicate EveryDrainComplete(history: seq<AuditEvent>, requestId: string, starts: seq<nat>, marks: seq<nat>,
                                     written: seq<AuditEvent>)
  {
    && |starts| == |marks|
    && forall k :: 0 <= k < |starts| ==>
         starts[k] <= |history| && marks[k] <= |written|
         && AllWritten(history[..starts[k]], requestId, written[..marks[k]])
  }

  /** What holds of the whole run after any number of polls. */
  ghost predicate TailRun(history: seq<AuditEvent>, requestId: string, visible: nat,
                          written: seq<AuditEvent>, w: Watermark, starts: seq<nat>, ends: seq<nat>, marks: seq<nat>,
                          capped: bool)
    requires visible <= |history|
  {
    && UniqueIds(written) && OnlyMine(history[..visible], requestId, written) && Marks(written, w)
    && (!capped ==> CaughtUp(history[..visible], requestId, written, w))
    && (!capped ==> EveryDrainComplete(history, requestId, starts, marks, written))
    && (capped ==> |Tailed(history[..visible], requestId)| > POLL_PAGE_SIZE * POLL_DRAIN_PAGE_CAP)
    && (starts == [] ==> written == [])
    && TimeOrdered(written)
    && (!capped && starts == ends && starts != [] && Numbered(Tailed(history, requestId)) ==>
          written == Tailed(history[..visible], requestId))
  }

  lemma NothingPolled(history: seq<AuditEvent>, requestId: string, visible: nat)
    requires visible <= |history|
    ensures TailRun(history, requestId, visible, [], Watermark(None, {}), [], [], [], false)
  {
  }

  lemma OneMorePoll(from: nat, starts: seq<nat>, ends: seq<nat>, marks: seq<nat>, n0: nat, start: nat, n1: nat,
                    count: nat, more: nat)
    requires PollsInOrder(from, starts, ends, marks, n0, count) && n0 <= start <= n1 && count <= more
    ensures PollsInOrder(from, starts + [start], ends + [n1], marks + [more], n1, more)
  {
  }

  lemma OneMoreCompleteDrain(history: seq<AuditEvent>, requestId: string, starts: seq<nat>, marks: seq<nat>,
                             before: seq<AuditEvent>, start: nat, written: seq<AuditEvent>)
    requires EveryDrainComplete(history, requestId, starts, marks, before)
    requires before <= written && start <= |history| && AllWritten(history[..start], requestId, written)
    ensures EveryDrainComplete(history, requestId, starts + [start], marks + [|written|], written)
  {
    var ss, ms := starts + [start], marks + [|written|];
    forall k | 0 <= k < |ss| ensures AllWritten(history[..ss[k]], requestId, written[..ms[k]]) {
      if k < |starts| {
        assert written[..marks[k]] == before[..marks[k]];
      } else {
        assert written[..ms[k]] == written;
      }
    }
  }

  /** One poll, from the state it found to the state it left. */
  lemma PollKeepsRun(history: seq<AuditEvent>, requestId: string, n0: nat, start: nat, n1: nat,
                     before: seq<AuditEvent>, mark: Watermark, starts: seq<nat>, ends: seq<nat>, marks: seq<nat>,
                     capped: bool, events: seq<AuditEvent>, cut: bool,
                     written: seq<AuditEvent>, w: Watermark)
    requires Orderly(history, requestId)
    requires PollOutcome(history, requestId, n0, start, n1, before, mark, events, cut, written, w)
    requires TailRun(history, requestId, n0, before, mark, starts, ends, marks, capped)
    ensures TailRun(history, requestId, n1, written, w, starts + [start], ends + [n1], marks + [|written|],
                    capped || cut)
  {
    hide Polled, Marks, UniqueIds, OnlyMine, CaughtUp, AllWritten, Tailed, Numbered, EveryDrainComplete,
         TimeOrdered;
    PollWritesOnce(history, requestId, n0, start, n1, before, mark, events, cut, written, w);
    PollWritesInOrder(history, requestId, n0, start, n1, before, mark, events, cut, written, w);
    ChainSplits(history, requestId, n0, n1);
    if cut {
      PollWasCut(history, requestId, start, n1, mark.createdAfter, events);
    }
    if !capped && !cut {
      PollCatchesUp(history, requestId, n0, start, n1, before, mark, events, written, w);
      OneMoreCompleteDrain(history, requestId, starts, marks, before, start, written);
      if starts + [start] == ends + [n1] && Numbered(Tailed(history, requestId)) {
        SameExceptLast(starts, start, ends, n1);
        if starts == [] {
          FirstSnapshotPoll(history, requestId, n0, start, before, mark, events, written, w);
        } else {
          SnapshotPollExtendsChain(history, requestId, n0, start, before, mark, events, written, w);
        }
      }
    }
  }

  lemma SameExceptLast(s: seq<nat>, x: nat, t: seq<nat>, y: nat)
    requires s + [x] == t + [y]
    ensures s == t && x == y
  {
    assert (s + [x])[..|s|] == s && (t + [y])[..|t|] == t;
    assert (s + [x])[|s|] == x && (t + [y])[|t|] == y;
  }

  lemma PollWasCut(history: seq<AuditEvent>, requestId: string, start: nat, n1: nat, createdAfter: Option<int>,
                   events: seq<AuditEvent>)
    requires start <= n1 <= |history|
    requires Polled(history[..start], history[..n1], requestId, createdAfter, POLL_PAGE_SIZE, events, true)
    ensures |Tailed(history[..n1], requestId)| > POLL_PAGE_SIZE * POLL_DRAIN_PAGE_CAP
  {
    CappedMeansMany(history[..n1], requestId, createdAfter);
  }

  /**
   * The first poll misses nothing exactly when the request has at most fifty full pages of events. Later polls
   * cannot make up for older events it misses, as lines are only ever written in time order.
   */
  lemma FirstPollCompleteExactly(history: seq<AuditEvent>, requestId: string, n0: nat, n1: nat,
                                 mark: Watermark, events: seq<AuditEvent>, capped: bool,
                                 written: seq<AuditEvent>, w: Watermark)
    requires Orderly(history, requestId)
    requires PollOutcome(history, requestId, n0, n1, n1, [], mark, events, capped, written, w)
    ensures AllWritten(history[..n1], requestId, written)
       <==> |Tailed(history[..n1], requestId)| <= 10_000
  {
    hide Keeps, Sorted;
    var log := history[..n1];
    PrefixIds(history, n1);
    FirstPollHolds(log, requestId, mark, events, capped, written);
    if AllWritten(log, requestId, written) {
      ChainFits(log, requestId, events);
    }
    if capped {
      PollWasCut(history, requestId, n1, n1, mark.createdAfter, events);
    }
  }

  lemma FirstPollHolds(log: seq<AuditEvent>, requestId: string, mark: Watermark, events: seq<AuditEvent>, capped: bool,
                       written: seq<AuditEvent>)
    requires Polled(log, log, requestId, mark.createdAfter, POLL_PAGE_SIZE, events, capped)
    requires Marks([], mark) && written == [] + Filter(NotIn([]), events)
    ensures AllWritten(log, requestId, written) ==> forall e :: e in log && Mine(e, requestId) ==> e in events
    ensures !capped ==> AllWritten(log, requestId, written)
  {
    hide Keeps, Sorted, UniqueIds;
    WrittenMembers([], events);
    assert mark.createdAfter.None?;
    if !capped {
      forall e | e in log && Mine(e, requestId) ensures e in written {
        assert Wanted(e, requestId, mark.createdAfter);
      }
    }
  }

  lemma ChainFits(log: seq<AuditEvent>, requestId: string, events: seq<AuditEvent>)
    requires UniqueIds(log) && forall e :: e in log && Mine(e, requestId) ==> e in events
    ensures |Tailed(log, requestId)| <= |events|
  {
    var c := Tailed(log, requestId);
    FilterKeepsIds(MineOf(requestId), log);
    forall i | 0 <= i < |c| ensures c[i] in events {
      KeptIsMember(MineOf(requestId), log, c[i]);
    }
    forall i, j | 0 <= i < j < |c| ensures c[i] != c[j] { assert c[i].id != c[j].id; }
    DistinctFits(c, events);
  }

  ghost predicate TimeOrdered(written: seq<AuditEvent>)
  {
    forall i, j :: 0 <= i < j < |written| ==> written[i].createdAt <= written[j].createdAt
  }

  /** A poll writes its events in time order, none older than what was written before. */
  lemma PollWritesInOrder(history: seq<AuditEvent>, requestId: string, n0: nat, start: nat, n1: nat,
                          before: seq<AuditEvent>, mark: Watermark, events: seq<AuditEvent>, capped: bool,
                          written: seq<AuditEvent>, w: Watermark)
    requires TimeOrdered(before)
    requires PollOutcome(history, requestId, n0, start, n1, before, mark, events, capped, written, w)
    ensures TimeOrdered(written)
  {
    hide UniqueIds, Keeps, Mine, OnlyMine;
    var news := Filter(NotIn(before), events);
    FilterSorted(NotIn(before), events);
    forall i, j | 0 <= i < j < |written| ensures written[i].createdAt <= written[j].createdAt {
      if |before| <= i {
        assert !OldestFirst(news[j - |before|], news[i - |before|]);
      } else if |before| <= j {
        KeptIsMember(NotIn(before), events, news[j - |before|]);
        assert before[i] in before && Wanted(news[j - |before|], requestId, mark.createdAfter);
      }
    }
  }

  lemma {:induction false} FilterSorted(keep: AuditEvent -> bool, s: seq<AuditEvent>)
    requires Sorted(OldestFirst, s)
    ensures Sorted(OldestFirst, Filter(keep, s))
  {
    if s != [] {
      FilterSorted(keep, s[1..]);
      var rest := Filter(keep, s[1..]);
      forall k | 0 <= k < |rest| ensures !OldestFirst(rest[k], s[0]) {
        KeptIsMember(keep, s[1..], rest[k]);
      }
    }
  }

  /** The first poll writes the chain from its beginning, however much of it was there before. */
  lemma FirstSnapshotPoll(history: seq<AuditEvent>, requestId: string, n0: nat, n1: nat,
                          before: seq<AuditEvent>, mark: Watermark, events: seq<AuditEvent>,
                          written: seq<AuditEvent>, w: Watermark)
    requires Orderly(history, requestId) && Numbered(Tailed(history, requestId))
    requires PollOutcome(history, requestId, n0, n1, n1, before, mark, events, false, written, w)
    requires before == []
    ensures written == Tailed(history[..n1], requestId)
  {
    assert PollOutcome(history, requestId, 0, n1, n1, before, mark, events, false, written, w);
    assert Tailed(history[..0], requestId) == [];
    SnapshotPollExtendsChain(history, requestId, 0, n1, before, mark, events, written, w);
  }

  lemma NoPollsYet(visible: nat)
    ensures PollsInOrder(visible, [], [], [], visible, 0)
  {
  }
}
