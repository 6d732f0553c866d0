/**
 * `dsar audit tail` (audit-tail.ts): a client that drains the audit log page by page while other clients
 * keep appending, remembers a watermark and the ids written at it, and must write every event once.
 */
module AuditTail {
  import opened Basics
  import opened AuditLog
  import opened Keyset
  import opened Sorting
  import Text

  const POLL_PAGE_SIZE := 200
  const POLL_DRAIN_PAGE_CAP := 50

  function Least(a: nat, b: nat): nat
  {
    if a <= b then a else b
  }

  // ----- The server: a log that grows between fetches -----

  /**
   * `history` lists every event that is ever appended, in order; the log is the part visible so far. Each
   * fetch first makes `arrivals[0]` further events visible, so a sequence of arrivals is one interleaving.
   */
  class AuditApi {
    const history: seq<AuditEvent>
    var visible: nat
    var arrivals: seq<nat>

    ghost predicate Valid()
      reads this
    {
      visible <= |history|
    }

    function Log(): seq<AuditEvent>
      reads this
      requires Valid()
    {
      history[..visible]
    }

    constructor (history: seq<AuditEvent>, visible: nat, arrivals: seq<nat>)
      requires visible <= |history|
      ensures Valid() && this.history == history && this.visible == visible && this.arrivals == arrivals
    {
      this.history := history;
      this.visible := visible;
      this.arrivals := arrivals;
    }

    /** The `/audit` route. An answer is computed on the log as it is by then. */
    method Fetch(requestIdParam: string, createdAfter: Option<int>, cursor: Option<Cursor>, limit: int)
      returns (r: Result<Page<AuditBody>, ApiError>)
      requires Valid()
      modifies this
      ensures Valid() && visible >= old(visible)
      ensures old(arrivals) == [] ==> visible == old(visible) && arrivals == []
      ensures old(arrivals) != [] ==>
                && arrivals == old(arrivals)[1..]
                && visible == Least(old(visible) + old(arrivals)[0], |history|)
      ensures r == Answer(Log(), requestIdParam, createdAfter, cursor, limit)
    {
      if arrivals != [] {
        visible := Least(visible + arrivals[0], |history|);
        arrivals := arrivals[1..];
      }
      r := Answer(Log(), requestIdParam, createdAfter, cursor, limit);
    }
  }

  // ----- What the tail asks for -----

  function TailQuery(requestId: string, createdAfter: Option<int>): AuditQuery
  {
    AuditQuery(Some(requestId), None, None, None, createdAfter, None)
  }

  datatype ApiError = InvalidCursor

  /**
   * The route trims the request id, which leaves nothing of a blank one, and rejects a cursor whose id is blank.
   * A cursor it has given out itself comes back as it was.
   */
  function Answer(log: seq<AuditEvent>, requestIdParam: string, createdAfter: Option<int>, cursor: Option<Cursor>,
                  limit: int): Result<Page<AuditBody>, ApiError>
  {
    if cursor.Some? && Text.Blank(cursor.value.id) then Err(InvalidCursor)
    else
      var q := TailQuery(Text.Trim(requestIdParam), createdAfter);
      Ok(ListPage(log, Keeps(q), cursor, BoundedLimit(Some(limit))))
  }

  /** An empty request id filters nothing. */
  predicate Mine(e: AuditEvent, requestId: string)
  {
    requestId == "" || e.body.requestId == Some(requestId)
  }

  function MineOf(requestId: string): AuditEvent -> bool
  {
    (e: AuditEvent) => Mine(e, requestId)
  }

  /** What the tail is about: the request's events in the order they were appended. */
  function Tailed(log: seq<AuditEvent>, requestId: string): seq<AuditEvent>
  {
    Filter(MineOf(requestId), log)
  }

  lemma TailedIsChain(log: seq<AuditEvent>, requestId: string)
    requires requestId != ""
    ensures Tailed(log, requestId) == Chain(log, requestId)
  {
    FilterAgrees(MineOf(requestId), ForRequest(requestId), log);
  }

  predicate Wanted(e: AuditEvent, requestId: string, createdAfter: Option<int>)
  {
    Mine(e, requestId) && (createdAfter.Some? ==> e.createdAt >= createdAfter.value)
  }

  lemma TailKeeps(e: AuditEvent, requestId: string, createdAfter: Option<int>)
    ensures Keeps(TailQuery(requestId, createdAfter))(e) <==> Wanted(e, requestId, createdAfter)
  {
  }

  ghost predicate InTimeOrder(history: seq<AuditEvent>, requestId: string)
  {
    forall i, j :: 0 <= i < j < |history| && Mine(history[i], requestId) && Mine(history[j], requestId) ==>
      history[i].createdAt <= history[j].createdAt
  }

  /** Ids are unique, and the events of the request were appended in order of creation time. */
  ghost predicate Orderly(history: seq<AuditEvent>, requestId: string)
  {
    UniqueIds(history) && InTimeOrder(history, requestId)
  }

  // ----- Draining pages while the log grows -----

  /** The event is still to come in a drain that stands at `cursor`. */
  predicate Ahead(e: AuditEvent, cursor: Option<Cursor>)
  {
    cursor.Some? && Below(KeyOf(e), cursor.value)
  }

  /**
   * After some pages: `collected` descends strictly from an event of the log at the first fetch (`start`),
   * and holds every wanted event of that log which the cursor has passed.
   */
  ghost predicate Draining(start: seq<AuditEvent>, log: seq<AuditEvent>, keep: AuditEvent -> bool,
                           collected: seq<AuditEvent>, cursor: Option<Cursor>)
  {
    && StrictlySorted(NewestFirst, collected)
    && (forall e :: e in collected ==> e in log && keep(e))
    && (collected != [] ==> collected[0] in start)
    && (cursor.Some? ==> collected != [] && cursor.value == KeyOf(collected[|collected| - 1]))
    && (forall e :: e in start && keep(e) && !Ahead(e, cursor) ==> e in collected)
  }

  lemma FirstPage(log: seq<AuditEvent>, keep: AuditEvent -> bool, limit: nat)
    requires UniqueIds(log) && limit >= 1
    ensures var page := ListPage(log, keep, None, limit);
            Draining(log, log, keep, page.items, page.nextCursor)
  {
    PageFacts(log, keep, None, limit);
    var page := ListPage(log, keep, None, limit);
    if page.items != [] { assert page.items[0] in page.items; }
  }

  /** One page of a growing log: its items are wanted, lie below the cursor, and leave nothing behind above the next. */
  lemma PageFacts(log: seq<AuditEvent>, keep: AuditEvent -> bool, cursor: Option<Cursor>, limit: nat)
    requires UniqueIds(log) && limit >= 1
    ensures var page := ListPage(log, keep, cursor, limit);
            && StrictlySorted(NewestFirst, page.items)
            && (forall e :: e in page.items ==> e in log && Both(keep, AfterCursor(cursor))(e))
            && (page.nextCursor.Some? ==>
                  && |page.items| == limit && page.nextCursor.value == KeyOf(page.items[limit - 1])
                  && exists e :: e in log && keep(e) && Ahead(e, page.nextCursor))
            && |page.items| <= limit
            && (forall e :: e in log && Both(keep, AfterCursor(cursor))(e) && !Ahead(e, page.nextCursor) ==>
                  e in page.items)
  {
    var both := Both(keep, AfterCursor(cursor));
    var filtered := Selected(log, both);
    SelectedIsExact(log, both);
    var page := ListPage(log, keep, cursor, limit);
    forall e | e in page.items
      ensures e in log && both(e)
    {
      assert e in filtered;
    }
    if page.nextCursor.Some? { assert filtered[limit] in filtered; }
  }

  lemma NextPage(start: seq<AuditEvent>, log: seq<AuditEvent>, later: seq<AuditEvent>, keep: AuditEvent -> bool,
                 collected: seq<AuditEvent>, cursor: Option<Cursor>, limit: nat)
    requires UniqueIds(later) && limit >= 1
    requires start <= log <= later
    requires Draining(start, log, keep, collected, cursor) && cursor.Some?
    ensures var page := ListPage(later, keep, cursor, limit);
            Draining(start, later, keep, collected + page.items, page.nextCursor)
  {
    PageFacts(later, keep, cursor, limit);
    BelowOrder();
    var page := ListPage(later, keep, cursor, limit);
    var all := collected + page.items;
    forall i, j | 0 <= i < j < |all| ensures NewestFirst(all[i], all[j]) {
      if i < |collected| <= j {
        assert all[j] in page.items;
        assert i < |collected| - 1 ==> NewestFirst(collected[i], collected[|collected| - 1]);
      }
    }
    forall e | e in start && keep(e) && !Ahead(e, page.nextCursor)
      ensures e in all
    {
      if Ahead(e, cursor) {
        assert e in later;
        assert e in page.items;
      }
    }
    if page.nextCursor.Some? {
      assert all[|all| - 1] == page.items[limit - 1];
    }
  }

  // ----- pollOnce -----

  predicate OldestFirst(a: AuditEvent, b: AuditEvent)
  {
    a.createdAt < b.createdAt || (a.createdAt == b.createdAt && a.body.sequence < b.body.sequence)
  }

  /** Every wanted event of the log at the first fetch that was left out comes below all events obtained. */
  ghost predicate LeftBelow(start: seq<AuditEvent>, requestId: string, createdAfter: Option<int>,
                            events: seq<AuditEvent>)
  {
    forall f, e :: f in start && Wanted(f, requestId, createdAfter) && f !in events && e in events ==>
      Below(KeyOf(f), KeyOf(e))
  }

  /** What one drain of up to the cap's number of pages has obtained. */
  ghost predicate Polled(start: seq<AuditEvent>, log: seq<AuditEvent>, requestId: string, createdAfter: Option<int>,
                         limit: nat, events: seq<AuditEvent>, capped: bool)
  {
    && UniqueIds(events)
    && Sorted(OldestFirst, events)
    && (forall e :: e in events ==> e in log && Wanted(e, requestId, createdAfter))
    && (events != [] ==>
          exists f :: f in start && Mine(f, requestId) && forall e :: e in events ==> e.createdAt <= f.createdAt)
    && (!capped ==> forall e :: e in start && Wanted(e, requestId, createdAfter) ==> e in events)
    && |events| <= limit * POLL_DRAIN_PAGE_CAP
    && LeftBelow(start, requestId, createdAfter, events)
    && (capped ==>
          && |events| == limit * POLL_DRAIN_PAGE_CAP
          && |Filter(Keeps(TailQuery(requestId, createdAfter)), log)| > limit * POLL_DRAIN_PAGE_CAP)
  }

  lemma UniqueIdsOfPart(s: seq<AuditEvent>, whole: seq<AuditEvent>)
    requires UniqueIds(whole) && forall i :: 0 <= i < |s| ==> s[i] in whole
    requires Distinct(s)
    ensures UniqueIds(s)
  {
    forall i, j | 0 <= i < j < |s| ensures s[i].id != s[j].id {
      var m :| 0 <= m < |whole| && whole[m] == s[i];
      var n :| 0 <= n < |whole| && whole[n] == s[j];
    }
  }

  lemma CappedLeavesMore(log: seq<AuditEvent>, keep: AuditEvent -> bool, collected: seq<AuditEvent>,
                         cursor: Option<Cursor>)
    requires Distinct(collected) && StrictlySorted(NewestFirst, collected)
    requires forall e :: e in collected ==> e in log && keep(e)
    requires cursor.Some? && collected != [] && cursor.value == KeyOf(collected[|collected| - 1])
    requires exists e :: e in log && keep(e) && Ahead(e, cursor)
    ensures |Filter(keep, log)| > |collected|
  {
    BelowOrder();
    var e :| e in log && keep(e) && Ahead(e, cursor);
    var more := collected + [e];
    FilterMembers(keep, log);
    forall i | 0 <= i < |collected| ensures collected[i] != e {
      assert i < |collected| - 1 ==> NewestFirst(collected[i], collected[|collected| - 1]);
    }
    forall i | 0 <= i < |more| ensures more[i] in Filter(keep, log) {
      if i < |collected| { assert more[i] in collected; }
    }
    DistinctFits(more, Filter(keep, log));
  }

  /** A drain after `pages` pages; while a cursor remains, every page was full and more is to come. */
  ghost predicate DrainedPages(start: seq<AuditEvent>, log: seq<AuditEvent>, keep: AuditEvent -> bool, limit: nat,
                               pages: nat, collected: seq<AuditEvent>, cursor: Option<Cursor>)
  {
    && Draining(start, log, keep, collected, cursor)
    && |collected| <= limit * pages
    && (cursor.Some? ==> |collected| == limit * pages && exists e :: e in log && keep(e) && Ahead(e, cursor))
  }

  lemma OnePageDrained(log: seq<AuditEvent>, keep: AuditEvent -> bool, limit: nat)
    requires UniqueIds(log) && limit >= 1
    ensures var page := ListPage(log, keep, None, limit);
            DrainedPages(log, log, keep, limit, 1, page.items, page.nextCursor)
  {
    FirstPage(log, keep, limit);
    PageFacts(log, keep, None, limit);
  }

  lemma OneMorePageDrained(start: seq<AuditEvent>, log: seq<AuditEvent>, later: seq<AuditEvent>,
                           keep: AuditEvent -> bool, limit: nat, pages: nat,
                           collected: seq<AuditEvent>, cursor: Option<Cursor>)
    requires UniqueIds(later) && limit >= 1
    requires start <= log <= later && cursor.Some?
    requires DrainedPages(start, log, keep, limit, pages, collected, cursor)
    ensures var page := ListPage(later, keep, cursor, limit);
            DrainedPages(start, later, keep, limit, pages + 1, collected + page.items, page.nextCursor)
  {
    hide ListPage;
    NextPage(start, log, later, keep, collected, cursor, limit);
    PageFacts(later, keep, cursor, limit);
    assert limit * (pages + 1) == limit * pages + limit;
  }

  /** The order of a drain: distinct events, none newer than the first. */
  lemma DrainedOrder(start: seq<AuditEvent>, log: seq<AuditEvent>, keep: AuditEvent -> bool,
                     collected: seq<AuditEvent>, cursor: Option<Cursor>)
    requires Draining(start, log, keep, collected, cursor)
    ensures Distinct(collected)
    ensures forall e :: e in collected ==> collected[0].createdAt >= e.createdAt
  {
    BelowOrder();
    forall i, j | 0 <= i < j < |collected| ensures collected[i] != collected[j] {
      assert NewestFirst(collected[i], collected[j]);
    }
    forall e | e in collected ensures collected[0].createdAt >= e.createdAt {
      var i :| 0 <= i < |collected| && collected[i] == e;
      assert i > 0 ==> NewestFirst(collected[0], collected[i]);
    }
  }

  /** Sorting what a drain has collected for output. */
  lemma SortedDrain(log: seq<AuditEvent>, collected: seq<AuditEvent>)
    requires UniqueIds(log) && Distinct(collected) && forall e :: e in collected ==> e in log
    ensures var events := Sort(OldestFirst, collected);
            && Sorted(OldestFirst, events) && UniqueIds(events) && |events| == |collected|
            && forall e :: e in events <==> e in collected
  {
    hide UniqueIds;
    var events := Sort(OldestFirst, collected);
    SortPermutes(OldestFirst, collected);
    SortSorts(OldestFirst, collected);
    SortKeepsDistinct(OldestFirst, collected);
    forall e ensures e in events <==> e in collected {
      assert e in events <==> e in multiset(events);
    }
    forall i | 0 <= i < |events| ensures events[i] in log {
      assert events[i] in events;
    }
    UniqueIdsOfPart(events, log);
  }

  lemma CursorIsLowest(start: seq<AuditEvent>, log: seq<AuditEvent>, keep: AuditEvent -> bool,
                       collected: seq<AuditEvent>, cursor: Option<Cursor>)
    requires Draining(start, log, keep, collected, cursor)
    ensures forall f, e :: f in start && keep(f) && f !in collected && e in collected ==> Below(KeyOf(f), KeyOf(e))
  {
    BelowOrder();
    forall f, e | f in start && keep(f) && f !in collected && e in collected ensures Below(KeyOf(f), KeyOf(e)) {
      var i :| 0 <= i < |collected| && collected[i] == e;
      assert Ahead(f, cursor);
      assert i < |collected| - 1 ==> NewestFirst(collected[i], collected[|collected| - 1]);
    }
  }

  /** What a drain has collected, in terms of the request and the watermark. */
  lemma DrainSelects(start: seq<AuditEvent>, log: seq<AuditEvent>, requestId: string, createdAfter: Option<int>,
                     collected: seq<AuditEvent>, cursor: Option<Cursor>)
    requires Draining(start, log, Keeps(TailQuery(requestId, createdAfter)), collected, cursor)
    ensures forall e :: e in collected ==> e in log && Wanted(e, requestId, createdAfter)
    ensures collected != [] ==>
              exists f :: f in start && Mine(f, requestId) && forall e :: e in collected ==> e.createdAt <= f.createdAt
    ensures cursor.None? ==> forall e :: e in start && Wanted(e, requestId, createdAfter) ==> e in collected
    ensures LeftBelow(start, requestId, createdAfter, collected)
  {
    hide Keeps, StrictlySorted, Below;
    CursorIsLowest(start, log, Keeps(TailQuery(requestId, createdAfter)), collected, cursor);
    DrainedOrder(start, log, Keeps(TailQuery(requestId, createdAfter)), collected, cursor);
    forall e ensures Keeps(TailQuery(requestId, createdAfter))(e) <==> Wanted(e, requestId, createdAfter) {
      TailKeeps(e, requestId, createdAfter);
    }
    if collected != [] {
      assert collected[0] in collected;
    }
  }

  /** A finished drain, sorted for output. */
  lemma PolledFromDrain(start: seq<AuditEvent>, log: seq<AuditEvent>, requestId: string, createdAfter: Option<int>,
                        limit: nat, pages: nat, collected: seq<AuditEvent>, cursor: Option<Cursor>)
    requires UniqueIds(log)
    requires DrainedPages(start, log, Keeps(TailQuery(requestId, createdAfter)), limit, pages, collected, cursor)
    requires pages <= POLL_DRAIN_PAGE_CAP && (cursor.Some? ==> pages == POLL_DRAIN_PAGE_CAP)
    ensures Polled(start, log, requestId, createdAfter, limit, Sort(OldestFirst, collected), cursor.Some?)
  {
    hide Keeps, StrictlySorted, NewestFirst, Below, UniqueIds, Sorted, Wanted, Mine, KeyOf;
    var keep := Keeps(TailQuery(requestId, createdAfter));
    DrainedOrder(start, log, keep, collected, cursor);
    DrainSelects(start, log, requestId, createdAfter, collected, cursor);
    assert limit * pages <= limit * POLL_DRAIN_PAGE_CAP;
    SortedDrain(log, collected);
    if cursor.Some? {
      CappedLeavesMore(log, keep, collected, cursor);
    }
  }

  /** The page cap, exactly: a drain of an unchanging log is cut short when more than the cap's pages are wanted. */
  lemma CutExactlyPastTheCap(log: seq<AuditEvent>, requestId: string, createdAfter: Option<int>, limit: nat,
                             events: seq<AuditEvent>, capped: bool)
    requires UniqueIds(log)
    requires Polled(log, log, requestId, createdAfter, limit, events, capped)
    ensures capped <==> |Filter(Keeps(TailQuery(requestId, createdAfter)), log)| > limit * 50
  {
    var keep := Keeps(TailQuery(requestId, createdAfter));
    if !capped {
      FilterMembers(keep, log);
      FilterKeepsIds(keep, log);
      forall e | e in Filter(keep, log) ensures e in events { TailKeeps(e, requestId, createdAfter); }
      DistinctFits(Filter(keep, log), events);
    }
  }

  lemma PrefixIds(history: seq<AuditEvent>, n: nat)
    requires UniqueIds(history) && n <= |history|
    ensures UniqueIds(history[..n])
  {
  }

  /** A drain after `pages` pages of a log that stands still. */
  ghost predicate Standing(all: seq<AuditEvent>, limit: nat, pages: nat, collected: seq<AuditEvent>,
                           cursor: Option<Cursor>)
  {
    && collected <= all
    && (cursor.Some? <==> |collected| < |all|)
    && (cursor.Some? ==> |collected| == limit * pages && CursorAt(cursor, all, |collected|))
  }

  lemma StandingNext(log: seq<AuditEvent>, keep: AuditEvent -> bool, limit: nat, pages: nat,
                     collected: seq<AuditEvent>, cursor: Option<Cursor>)
    requires UniqueIds(log) && limit >= 1
    requires if pages == 0 then collected == [] && cursor == None
             else cursor.Some? && Standing(Selected(log, keep), limit, pages, collected, cursor)
    ensures var page := ListPage(log, keep, cursor, limit);
            Standing(Selected(log, keep), limit, pages + 1, collected + page.items, page.nextCursor)
  {
    hide Selected, ListPage;
    PageAt(log, keep, cursor, limit, |collected|);
    assert limit * (pages + 1) == limit * pages + limit;
  }

  /** The cursor behind page `k` is needed, and its id is blank. */
  ghost predicate BlankCursorBehind(all: seq<AuditEvent>, limit: nat, k: nat)
  {
    0 < k < POLL_DRAIN_PAGE_CAP && 0 < k * limit < |all| && Text.Blank(all[k * limit - 1].id)
  }

  ghost predicate BlankIdWanted(log: seq<AuditEvent>, requestId: string, createdAfter: Option<int>)
  {
    exists e :: e in log && Wanted(e, requestId, createdAfter) && Text.Blank(e.id)
  }

  lemma LastIsWanted(start: seq<AuditEvent>, log: seq<AuditEvent>, requestId: string, createdAfter: Option<int>,
                     limit: nat, pages: nat, collected: seq<AuditEvent>, cursor: Option<Cursor>)
    requires DrainedPages(start, log, Keeps(TailQuery(requestId, createdAfter)), limit, pages, collected, cursor)
    requires cursor.Some? && Text.Blank(cursor.value.id)
    ensures BlankIdWanted(log, requestId, createdAfter)
  {
    var e := collected[|collected| - 1];
    TailKeeps(e, requestId, createdAfter);
    assert e in collected;
  }

  /**
   * `pollOnce`: follows cursors for at most the cap's number of pages, then sorts by time and sequence. It fails
   * only if a wanted event has a blank id, and on a log that stands still exactly if such an event ends a page
   * behind which the drain goes on.
   */
  method PollOnce(api: AuditApi, requestIdParam: string, createdAfter: Option<int>, limit: nat)
    returns (r: Result<seq<AuditEvent>, ApiError>, ghost start: nat, ghost capped: bool)
    requires api.Valid() && UniqueIds(api.history) && 1 <= limit <= MAX_LIST_LIMIT
    modifies api
    ensures api.Valid() && old(api.visible) <= start <= api.visible
    ensures var requestId := Text.Trim(requestIdParam);
            if r.Ok? then Polled(api.history[..start], api.Log(), requestId, createdAfter, limit, r.value, capped)
            else BlankIdWanted(api.Log(), requestId, createdAfter)
    ensures old(api.arrivals) == [] ==>
              var all := Selected(api.Log(), Keeps(TailQuery(Text.Trim(requestIdParam), createdAfter)));
              r.Err? <==> exists k :: BlankCursorBehind(all, limit, k)
  {
    hide Keeps, ListPage, DrainedPages, Standing, Polled, UniqueIds, Selected;
    ghost var requestId := Text.Trim(requestIdParam);
    ghost var keep := Keeps(TailQuery(requestId, createdAfter));
    ghost var still := api.arrivals == [];
    var fetched := api.Fetch(requestIdParam, createdAfter, None, limit);
    start := api.visible;
    capped := false;
    PrefixIds(api.history, start);
    OnePageDrained(api.Log(), keep, limit);
    StandingNext(api.Log(), keep, limit, 0, [], None);
    var collected := fetched.value.items;
    var cursor := fetched.value.nextCursor;
    var pages := 1;
    assert [] + collected == collected;
    while cursor.Some? && pages < POLL_DRAIN_PAGE_CAP
      invariant api.Valid() && old(api.visible) <= start <= api.visible
      invariant 1 <= pages <= POLL_DRAIN_PAGE_CAP
      invariant DrainedPages(api.history[..start], api.Log(), keep, limit, pages, collected, cursor)
      invariant still ==> api.arrivals == [] && api.visible == start
      invariant still ==> Standing(Selected(api.Log(), keep), limit, pages, collected, cursor)
      invariant still ==> forall k: nat :: k < pages ==> !BlankCursorBehind(Selected(api.Log(), keep), limit, k)
      decreases POLL_DRAIN_PAGE_CAP - pages
    {
      ghost var log := api.Log();
      fetched := api.Fetch(requestIdParam, createdAfter, cursor, limit);
      PrefixIds(api.history, api.visible);
      if still { CursorBehindPage(Selected(log, keep), limit, pages, collected, cursor); }
      if fetched.Err? {
        LastIsWanted(api.history[..start], log, requestId, createdAfter, limit, pages, collected, cursor);
        r := Err(fetched.error);
        return;
      }
      OneMorePageDrained(api.history[..start], log, api.Log(), keep, limit, pages, collected, cursor);
      if still { StandingNext(log, keep, limit, pages, collected, cursor); }
      collected := collected + fetched.value.items;
      cursor := fetched.value.nextCursor;
      pages := pages + 1;
    }
    PrefixIds(api.history, api.visible);
    PolledFromDrain(api.history[..start], api.Log(), requestId, createdAfter, limit, pages, collected, cursor);
    DrainedSize(api.history[..start], api.Log(), keep, limit, pages, collected, cursor);
    if still { NoCursorBehindEnd(Selected(api.Log(), keep), limit, pages, collected, cursor); }
    capped := cursor.Some?;
    r := Ok(Sort(OldestFirst, collected));
  }

  lemma DrainedSize(start: seq<AuditEvent>, log: seq<AuditEvent>, keep: AuditEvent -> bool, limit: nat,
                    pages: nat, collected: seq<AuditEvent>, cursor: Option<Cursor>)
    requires DrainedPages(start, log, keep, limit, pages, collected, cursor)
    ensures |collected| <= limit * pages
  {
  }

  lemma CursorBehindPage(all: seq<AuditEvent>, limit: nat, pages: nat, collected: seq<AuditEvent>,
                         cursor: Option<Cursor>)
    requires Standing(all, limit, pages, collected, cursor) && cursor.Some? && limit >= 1
    requires 1 <= pages < POLL_DRAIN_PAGE_CAP
    ensures BlankCursorBehind(all, limit, pages) <==> Text.Blank(cursor.value.id)
  {
    assert limit * pages >= 1;
    assert pages * limit == limit * pages;
  }

  /** Once a drain has ended, no cursor behind a later page is needed. */
  lemma NoCursorBehindEnd(all: seq<AuditEvent>, limit: nat, pages: nat, collected: seq<AuditEvent>,
                          cursor: Option<Cursor>)
    requires Standing(all, limit, pages, collected, cursor) && |collected| <= limit * pages
    requires cursor.None? || pages == POLL_DRAIN_PAGE_CAP
    ensures forall k: nat :: BlankCursorBehind(all, limit, k) ==> k < pages
  {
    forall k: nat | BlankCursorBehind(all, limit, k) ensures k < pages {}
  }

  // ----- The watermark and the ids written at it -----

  datatype Watermark = Watermark(createdAfter: Option<int>, seenAtWatermark: set<string>)

  /** The watermark is the newest time written, and `seenAtWatermark` is exactly the ids written at it. */
  ghost predicate Marks(written: seq<AuditEvent>, w: Watermark)
  {
    && (w.createdAfter.None? ==> written == [] && w.seenAtWatermark == {})
    && (w.createdAfter.Some? ==>
          && (forall e :: e in written ==> e.createdAt <= w.createdAfter.value)
          && (exists e :: e in written && e.createdAt == w.createdAfter.value)
          && (forall id :: id in w.seenAtWatermark <==>
                exists e :: e in written && e.createdAt == w.createdAfter.value && e.id == id))
  }

  function NotIn(written: seq<AuditEvent>): AuditEvent -> bool
  {
    (e: AuditEvent) => e !in written
  }

  function NextMark(w: Watermark, e: AuditEvent): Watermark
  {
    if w.createdAfter.None? || e.createdAt > w.createdAfter.value then Watermark(Some(e.createdAt), {e.id})
    else w.(seenAtWatermark := w.seenAtWatermark + {e.id})
  }

  /** Writing an event no older than the watermark keeps the marks. */
  lemma WritingKeepsMarks(written: seq<AuditEvent>, w: Watermark, e: AuditEvent)
    requires Marks(written, w)
    requires w.createdAfter.Some? ==> e.createdAt >= w.createdAfter.value
    ensures Marks(written + [e], NextMark(w, e))
  {
    var all, v := written + [e], NextMark(w, e);
    assert e in all && e.createdAt == v.createdAfter.value;
    forall id ensures id in v.seenAtWatermark <==>
                      exists f :: f in all && f.createdAt == v.createdAfter.value && f.id == id
    {
      if id in v.seenAtWatermark {
        if id == e.id {
          assert e in all;
        } else {
          var f :| f in written && f.createdAt == w.createdAfter.value && f.id == id;
          assert f in all;
        }
      }
      if f :| f in all && f.createdAt == v.createdAfter.value && f.id == id {
        assert f == e || f in written;
      }
    }
  }

  ghost predicate SameIdSameEvent(s: seq<AuditEvent>)
  {
    forall e, f :: e in s && f in s && e.id == f.id ==> e == f
  }

  /** An event no older than the watermark has been written exactly when its id is remembered. */
  lemma SeenMeansWritten(written: seq<AuditEvent>, w: Watermark, e: AuditEvent)
    requires Marks(written, w) && SameIdSameEvent(written + [e])
    requires w.createdAfter.Some? ==> e.createdAt >= w.createdAfter.value
    ensures e.id in w.seenAtWatermark <==> e in written
  {
    if e.id in w.seenAtWatermark {
      var f :| f in written && f.createdAt == w.createdAfter.value && f.id == e.id;
      assert f in written + [e] && e in written + [e];
    }
  }

  /** What the loop knows when it comes to event `k`, and what writing or skipping the event leaves. */
  lemma NextEvent(events: seq<AuditEvent>, before: seq<AuditEvent>, written: seq<AuditEvent>, k: nat)
    requires k < |events| && Distinct(events) && SameIdSameEvent(before + events)
    requires written == before + Filter(NotIn(before), events[..k])
    ensures SameIdSameEvent(written + [events[k]])
    ensures events[k] in written <==> events[k] in before
    ensures before + Filter(NotIn(before), events[..k + 1])
         == if events[k] in before then written else written + [events[k]]
  {
    var event := events[k];
    FilterConcat(NotIn(before), events[..k], [event]);
    assert events[..k + 1] == events[..k] + [event];
    forall e ensures e in Filter(NotIn(before), events[..k]) <==> e in events[..k] && e !in before {
      KeptIsMember(NotIn(before), events[..k], e);
    }
    forall e | e in written + [event] ensures e in before + events {
      assert e in written ==> e in before || e in events[..k];
    }
  }

  /** The output loop of one poll: skip remembered ids, write the rest, move the watermark. */
  method EmitNew(events: seq<AuditEvent>, before: seq<AuditEvent>, mark: Watermark)
    returns (written: seq<AuditEvent>, w: Watermark)
    requires Marks(before, mark) && Sorted(OldestFirst, events) && Distinct(events)
    requires SameIdSameEvent(before + events)
    requires mark.createdAfter.Some? ==> forall e :: e in events ==> e.createdAt >= mark.createdAfter.value
    ensures written == before + Filter(NotIn(before), events)
    ensures Marks(written, w)
  {
    hide Marks, SameIdSameEvent, Filter;
    written, w := before, mark;
    FilterNone(NotIn(before), events[..0]);
    for k := 0 to |events|
      invariant written == before + Filter(NotIn(before), events[..k])
      invariant Marks(written, w)
      invariant w.createdAfter.Some? ==> forall j :: k <= j < |events| ==> events[j].createdAt >= w.createdAfter.value
    {
      var event := events[k];
      NextEvent(events, before, written, k);
      SeenMeansWritten(written, w, event);
      if event.id !in w.seenAtWatermark {
        WritingKeepsMarks(written, w, event);
        written := written + [event];
        if w.createdAfter.None? || event.createdAt > w.createdAfter.value {
          w := Watermark(Some(event.createdAt), {event.id});
        } else {
          w := Watermark(w.createdAfter, w.seenAtWatermark + {event.id});
        }
      }
      assert forall j :: k < j < |events| ==> !OldestFirst(events[j], event);
    }
    assert events[..|events|] == events;
  }
}
