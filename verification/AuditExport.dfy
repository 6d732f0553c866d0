/** The tenant-wide export that drains the audit log page by page (audit/export.ts). */
module AuditExport {
  import opened Basics
  import opened AuditLog
  import opened Keyset
  import opened Sorting

  const EXPORT_HARD_CAP := 10_000
  const EXPORT_PAGE_SIZE := 500

  datatype ExportError = ExportTooLarge(cap: nat)

  datatype Export = Export(events: seq<AuditEvent>, rootHash: Option<string>, tipHash: Option<string>)

  function Window(since: int, until: Option<int>): AuditQuery
  {
    AuditQuery(None, None, None, None, Some(since), until)
  }

  predicate InWindow(e: AuditEvent, since: int, until: Option<int>)
  {
    since <= e.createdAt && (until.Some? ==> e.createdAt <= until.value)
  }

  function EventsInWindow(events: seq<AuditEvent>, since: int, until: Option<int>): seq<AuditEvent>
  {
    Filter((e: AuditEvent) => InWindow(e, since, until), events)
  }

  /**
   * The export succeeds exactly when at most the cap's number of events lie in the window, and then
   * returns each of them once, newest first, with the hashes of the earliest and the latest.
   */
  method ExportTenantWide(repo: AuditRepository, since: int, until: Option<int>)
    returns (r: Result<Export, ExportError>)
    requires UniqueIds(repo.events)
    ensures r.Ok? <==> |EventsInWindow(repo.events, since, until)| <= 10_000
    ensures r.Err? ==> r.error == ExportTooLarge(10_000)
    ensures r.Ok? ==>
              var out := r.value.events;
              && StrictlySorted(NewestFirst, out)
              && (forall e :: e in out <==>
                    e in repo.events && since <= e.createdAt && (until.None? || e.createdAt <= until.value))
              && (forall i, j :: 0 <= i < j < |out| ==> out[i].createdAt >= out[j].createdAt)
              && r.value.tipHash == (if out == [] then None else Some(out[0].body.hash))
              && r.value.rootHash == (if out == [] then None else Some(out[|out| - 1].body.hash))
  {
    hide Selected, ListPage, Keeps, EventsInWindow, NewestFirst, InWindow, UniqueIds, StrictlySorted;
    var q := Window(since, until);
    ghost var all := Selected(repo.events, Keeps(q));
    WindowSelected(repo.events, since, until);
    WindowCount(repo.events, since, until);
    var collected: seq<AuditEvent> := [];
    var cursor: Option<Cursor> := None;
    var last := false;
    while |collected| <= EXPORT_HARD_CAP && !last
      invariant |collected| <= |all| && collected == all[..|collected|]
      invariant !last ==> CursorAt(cursor, all, |collected|)
      invariant last ==> collected == all
      decreases |all| - |collected|, !last
    {
      PageAt(repo.events, Keeps(q), cursor, EXPORT_PAGE_SIZE, |collected|);
      var page := repo.List(q, cursor, Some(EXPORT_PAGE_SIZE));
      collected := collected + page.items;
      if page.nextCursor.None? {
        last := true;
      } else {
        cursor := page.nextCursor;
      }
    }
    if |collected| > EXPORT_HARD_CAP {
      return Err(ExportTooLarge(EXPORT_HARD_CAP));
    }
    r := Ok(Export(collected, HashOf(Last(collected)), if collected == [] then None else Some(collected[0].body.hash)));
  }

  lemma WindowSelected(events: seq<AuditEvent>, since: int, until: Option<int>)
    requires UniqueIds(events)
    ensures var all := Selected(events, Keeps(Window(since, until)));
            && StrictlySorted(NewestFirst, all)
            && (forall e :: e in all <==>
                  e in events && since <= e.createdAt && (until.None? || e.createdAt <= until.value))
            && (forall i, j :: 0 <= i < j < |all| ==> all[i].createdAt >= all[j].createdAt)
  {
    hide Selected, Keeps;
    var all := Selected(events, Keeps(Window(since, until)));
    SelectedIsExact(events, Keeps(Window(since, until)));
    forall e ensures e in all <==> e in events && InWindow(e, since, until) {
      WindowKeeps(e, since, until);
    }
  }

  lemma WindowKeeps(e: AuditEvent, since: int, until: Option<int>)
    ensures Keeps(Window(since, until))(e) <==> InWindow(e, since, until)
  {
  }

  lemma WindowCount(events: seq<AuditEvent>, since: int, until: Option<int>)
    ensures |Selected(events, Keeps(Window(since, until)))| == |EventsInWindow(events, since, until)|
  {
    hide Keeps;
    var keep := Keeps(Window(since, until));
    var inside := (e: AuditEvent) => InWindow(e, since, until);
    forall e | e in events ensures keep(e) == inside(e) { WindowKeeps(e, since, until); }
    FilterAgrees(keep, inside, events);
    SortPermutes(NewestFirst, Filter(keep, events));
  }
}
