/**
 * Finding a subject's requests: the repository's `listBySubject` (minimal-persistence.ts), the older
 * in-route implementation (subjects.ts), and the loop that collects every request id (routes/audit.ts).
 */
module SubjectLookup {
  import opened Basics
  import opened Keyset
  import opened Sorting

  datatype RequestBody = RequestBody(
    status: string,
    subjectId: Option<string>,
    externalRef: Option<string>,
    email: Option<string>,
    policyPack: Option<string>)

  type Request = Entry<RequestBody>

  datatype SubjectQuery = SubjectQuery(
    identifiers: seq<string>,
    status: seq<string>,
    createdAfter: Option<int>,
    createdBefore: Option<int>,
    policyPack: Option<string>,
    cursor: Option<Cursor>,
    limit: Option<int>)

  /** The identifiers a query asks for, normalised; blank ones ask for nothing. */
  function Wanted(normalize: string -> string, identifiers: seq<string>): set<string>
  {
    set i | 0 <= i < |identifiers| && normalize(identifiers[i]) != "" :: normalize(identifiers[i])
  }

  predicate Identifies(normalize: string -> string, value: Option<string>, wanted: set<string>)
  {
    value.Some? && normalize(value.value) != "" && normalize(value.value) in wanted
  }

  predicate MatchesSubject(normalize: string -> string, r: RequestBody, wanted: set<string>)
  {
    || Identifies(normalize, r.subjectId, wanted)
    || Identifies(normalize, r.externalRef, wanted)
    || Identifies(normalize, r.email, wanted)
  }

  /** A blank policy pack counts as none. */
  function PolicyPackOf(r: RequestBody): Option<string>
  {
    if r.policyPack == Some("") then None else r.policyPack
  }

  /** The tests both implementations make alike; the time bounds are exclusive. */
  predicate CommonTests(normalize: string -> string, q: SubjectQuery, e: Request)
  {
    && MatchesSubject(normalize, e.body, Wanted(normalize, q.identifiers))
    && (q.status != [] ==> e.body.status in q.status)
    && (q.createdAfter.Some? ==> e.createdAt > q.createdAfter.value)
    && (q.createdBefore.Some? ==> e.createdAt < q.createdBefore.value)
  }

  function RepositoryKeeps(normalize: string -> string, q: SubjectQuery): Request -> bool
  {
    (e: Request) =>
      && CommonTests(normalize, q, e)
      && (q.policyPack.Some? ==> PolicyPackOf(e.body) == q.policyPack)
  }

  /** The request carries the identifier as its subject, external reference or email, up to normalisation. */
  ghost predicate Carries(normalize: string -> string, r: RequestBody, id: string)
  {
    || (r.subjectId.Some? && normalize(r.subjectId.value) == id)
    || (r.externalRef.Some? && normalize(r.externalRef.value) == id)
    || (r.email.Some? && normalize(r.email.value) == id)
  }

  /** What the repository lists: one identifier asked for is carried, and every filter given is met. */
  lemma RepositoryKeepsExactly(normalize: string -> string, q: SubjectQuery, e: Request)
    ensures RepositoryKeeps(normalize, q)(e) <==>
              && (exists i :: 0 <= i < |q.identifiers| && normalize(q.identifiers[i]) != ""
                           && Carries(normalize, e.body, normalize(q.identifiers[i])))
              && (q.status == [] || e.body.status in q.status)
              && (forall t :: q.createdAfter == Some(t) ==> t < e.createdAt)
              && (forall t :: q.createdBefore == Some(t) ==> e.createdAt < t)
              && (q.policyPack.None? || (q.policyPack == e.body.policyPack && q.policyPack != Some("")))
  {
    var wanted := Wanted(normalize, q.identifiers);
    if i :| 0 <= i < |q.identifiers| && normalize(q.identifiers[i]) != ""
            && Carries(normalize, e.body, normalize(q.identifiers[i])) {
      assert normalize(q.identifiers[i]) in wanted;
    }
    if MatchesSubject(normalize, e.body, wanted) {
      var id :| id in wanted && Carries(normalize, e.body, id);
      var i :| 0 <= i < |q.identifiers| && normalize(q.identifiers[i]) == id;
    }
  }

  /** The repository ignores a cursor with a blank id. */
  function RepositoryCursor(q: SubjectQuery): Option<Cursor>
  {
    if q.cursor.Some? && q.cursor.value.id == "" then None else q.cursor
  }

  function ListBySubject(normalize: string -> string, records: seq<Request>, q: SubjectQuery): Page<RequestBody>
  {
    var limit := BoundedLimit(q.limit);
    if Wanted(normalize, q.identifiers) == {} then Page([], limit, None)
    else ListPage(records, RepositoryKeeps(normalize, q), RepositoryCursor(q), limit)
  }

  function LegacyKeeps(normalize: string -> string, q: SubjectQuery): Request -> bool
  {
    (e: Request) =>
      && CommonTests(normalize, q, e)
      && (q.policyPack.Some? && q.policyPack.value != "" ==> PolicyPackOf(e.body) == q.policyPack)
      && (q.cursor.Some? ==> Below(KeyOf(e), q.cursor.value))
  }

  function LegacyListBySubject(normalize: string -> string, records: seq<Request>, q: SubjectQuery): Page<RequestBody>
  {
    var limit := if q.limit.Some? then q.limit.value else DEFAULT_LIST_LIMIT;
    if Wanted(normalize, q.identifiers) == {} then Page([], limit, None)
    else PageOf(Selected(records, LegacyKeeps(normalize, q)), limit)
  }

  // ----- When the two implementations agree -----

  /** Some time lies strictly between the bounds. */
  predicate Between(lo: Option<int>, hi: Option<int>)
  {
    lo.Some? && hi.Some? ==> lo.value + 1 < hi.value
  }

  function Later(a: Option<int>, t: int): Option<int>
  {
    if a.Some? && a.value > t then a else Some(t)
  }

  function Earlier(a: Option<int>, t: int): Option<int>
  {
    if a.Some? && a.value < t then a else Some(t)
  }

  /**
   * Only the older implementation takes a blank pack for none: it shows when some time within the bounds is one
   * the cursor admits.
   */
  predicate BlankPackShows(q: SubjectQuery)
  {
    && q.policyPack == Some("")
    && if q.cursor.None? then Between(q.createdAfter, q.createdBefore)
       else Between(q.createdAfter,
                    Earlier(q.createdBefore, q.cursor.value.createdAt + if q.cursor.value.id == "" then 0 else 1))
  }

  /** Only the repository ignores a cursor with a blank id: it shows when some time within the bounds is past it. */
  predicate BlankCursorShows(q: SubjectQuery)
  {
    && q.policyPack != Some("")
    && q.cursor.Some? && q.cursor.value.id == ""
    && Between(Later(q.createdAfter, q.cursor.value.createdAt - 1), q.createdBefore)
  }

  /** What a caller has to see to for the two implementations to be interchangeable. */
  predicate Interchangeable(normalize: string -> string, q: SubjectQuery)
  {
    && (q.limit.Some? ==> 1 <= q.limit.value <= 500)
    && (Wanted(normalize, q.identifiers) != {} ==> !BlankPackShows(q) && !BlankCursorShows(q))
  }

  ghost predicate AgreeOnEveryStore(normalize: string -> string, q: SubjectQuery)
  {
    forall records :: UniqueIds(records) ==>
      LegacyListBySubject(normalize, records, q) == ListBySubject(normalize, records, q)
  }

  /** The exact condition: the two return the same page of every store if and only if the query is such. */
  lemma ImplementationsAgreeExactly(normalize: string -> string, q: SubjectQuery)
    ensures AgreeOnEveryStore(normalize, q) <==> Interchangeable(normalize, q)
  {
    hide LegacyListBySubject, ListBySubject;
    if Interchangeable(normalize, q) {
      forall records | UniqueIds(records)
        ensures LegacyListBySubject(normalize, records, q) == ListBySubject(normalize, records, q)
      {
        ImplementationsAgree(normalize, records, q);
      }
    } else {
      var records := ImplementationsDisagree(normalize, q);
      assert UniqueIds(records);
    }
  }

  /** What the route and the collecting loop always send is such a query. */
  lemma WellFormedIsInterchangeable(normalize: string -> string, q: SubjectQuery)
    requires q.limit.Some? ==> 1 <= q.limit.value <= 500
    requires q.policyPack != Some("") && (q.cursor.Some? ==> q.cursor.value.id != "")
    ensures AgreeOnEveryStore(normalize, q)
  {
    ImplementationsAgreeExactly(normalize, q);
  }

  lemma ImplementationsAgree(normalize: string -> string, records: seq<Request>, q: SubjectQuery)
    requires Interchangeable(normalize, q)
    ensures LegacyListBySubject(normalize, records, q) == ListBySubject(normalize, records, q)
  {
    if Wanted(normalize, q.identifiers) != {} {
      var keep := Both(RepositoryKeeps(normalize, q), AfterCursor(RepositoryCursor(q)));
      forall e | e in records ensures keep(e) == LegacyKeeps(normalize, q)(e) {}
      FilterAgrees(keep, LegacyKeeps(normalize, q), records);
    }
  }

  /** A store on which the two differ: one matching record, at a time and with an id that make the difference show. */
  lemma ImplementationsDisagree(normalize: string -> string, q: SubjectQuery) returns (records: seq<Request>)
    requires !Interchangeable(normalize, q)
    ensures UniqueIds(records)
    ensures LegacyListBySubject(normalize, records, q) != ListBySubject(normalize, records, q)
  {
    if q.limit.Some? && !(1 <= q.limit.value <= MAX_LIST_LIMIT) {
      records := [];
    } else {
      var i :| 0 <= i < |q.identifiers| && normalize(q.identifiers[i]) != "";
      assert normalize(q.identifiers[i]) in Wanted(normalize, q.identifiers);
      var body := RequestBody(if q.status == [] then "" else q.status[0], Some(q.identifiers[i]), None, None,
                              q.policyPack);
      var t := ShowingTime(q);
      var e := Entry(t, "", body);
      records := [e];
      assert CommonTests(normalize, q, e);
      var keep := Both(RepositoryKeeps(normalize, q), AfterCursor(RepositoryCursor(q)));
      assert keep(e) != LegacyKeeps(normalize, q)(e);
      OneRecord(e, keep);
      OneRecord(e, LegacyKeeps(normalize, q));
    }
  }

  lemma ShowingTime(q: SubjectQuery) returns (t: int)
    requires BlankPackShows(q) || BlankCursorShows(q)
    ensures q.createdAfter.Some? ==> t > q.createdAfter.value
    ensures q.createdBefore.Some? ==> t < q.createdBefore.value
    ensures BlankPackShows(q) && q.cursor.Some? ==> Below(Cursor(t, ""), q.cursor.value)
    ensures BlankCursorShows(q) ==> t >= q.cursor.value.createdAt
  {
    if BlankCursorShows(q) {
      t := Later(q.createdAfter, q.cursor.value.createdAt - 1).value + 1;
    } else {
      var hi := if q.cursor.None? then q.createdBefore
                else Earlier(q.createdBefore, q.cursor.value.createdAt + if q.cursor.value.id == "" then 0 else 1);
      t := if hi.Some? then hi.value - 1 else if q.createdAfter.Some? then q.createdAfter.value + 1 else 0;
    }
  }

  lemma OneRecord(e: Request, keep: Request -> bool)
    ensures Selected([e], keep) == if keep(e) then [e] else []
  {
    assert [e][1..] == [];
    assert Filter(keep, [e]) == if keep(e) then [e] else [];
    assert Sort(NewestFirst, [e]) == Insert(NewestFirst, e, Sort(NewestFirst, [e][1..]));
  }

  // ----- Collecting every request of a subject -----

  const SUBJECT_REQUEST_EXPANSION_CAP := 10_000

  datatype CollectError = TooManyRequests(cap: nat)

  function QueryFor(subjectId: string, cursor: Option<Cursor>): SubjectQuery
  {
    SubjectQuery([subjectId], [], None, None, None, cursor, Some(MAX_LIST_LIMIT))
  }

  function SubjectRequests(normalize: string -> string, records: seq<Request>, subjectId: string): seq<Request>
  {
    Filter((e: Request) => MatchesSubject(normalize, e.body, Wanted(normalize, [subjectId])), records)
  }

  function Ids(s: seq<Request>): (r: seq<string>)
    ensures |r| == |s|
  {
    seq(|s|, i requires 0 <= i < |s| => s[i].id)
  }

  function AllOf(normalize: string -> string, records: seq<Request>, subjectId: string): seq<Request>
  {
    Selected(records, RepositoryKeeps(normalize, QueryFor(subjectId, None)))
  }

  /** The pages the loop walks are cut from one list, which holds each matching request once. */
  lemma AllOfIsExact(normalize: string -> string, records: seq<Request>, subjectId: string)
    requires UniqueIds(records)
    ensures var all := AllOf(normalize, records, subjectId);
            && |all| == |SubjectRequests(normalize, records, subjectId)|
            && Distinct(Ids(all))
            && forall id :: id in Ids(all) <==>
                 exists e :: e in SubjectRequests(normalize, records, subjectId) && e.id == id
  {
    var keep := RepositoryKeeps(normalize, QueryFor(subjectId, None));
    var matching := (e: Request) => MatchesSubject(normalize, e.body, Wanted(normalize, [subjectId]));
    var all := AllOf(normalize, records, subjectId);
    var found := SubjectRequests(normalize, records, subjectId);
    FilterAgrees(keep, matching, records);
    SelectedIsExact(records, keep);
    forall e ensures e in all <==> e in found {
      KeptIsMember(keep, records, e);
    }
    forall id | id in Ids(all) ensures exists e :: e in found && e.id == id {
      var i :| 0 <= i < |all| && Ids(all)[i] == id;
      assert all[i] in found;
    }
    forall e | e in found ensures e.id in Ids(all) {
      var i :| 0 <= i < |all| && all[i] == e;
      assert Ids(all)[i] == e.id;
    }
  }

  /** Where the repository goes on for the cursor: a blank id sends it back to the start. */
  ghost predicate ResumesAt(cursor: Option<Cursor>, all: seq<Request>, k: nat)
    requires k <= |all|
  {
    if cursor.Some? && cursor.value.id != "" then CursorAt(cursor, all, k) else k == 0
  }

  lemma SubjectPage(normalize: string -> string, records: seq<Request>, subjectId: string,
                    cursor: Option<Cursor>, k: nat)
    requires UniqueIds(records)
    requires k <= |AllOf(normalize, records, subjectId)|
    requires ResumesAt(cursor, AllOf(normalize, records, subjectId), k)
    ensures var all := AllOf(normalize, records, subjectId);
            var page := ListBySubject(normalize, records, QueryFor(subjectId, cursor));
            var next := if k + 500 < |all| then k + 500 else |all|;
            && page.limit == 500 && page.items == all[k..next]
            && (page.nextCursor.Some? <==> next < |all|)
            && (page.nextCursor.Some? ==> CursorAt(page.nextCursor, all, next))
  {
    var q := QueryFor(subjectId, cursor);
    var keep := RepositoryKeeps(normalize, QueryFor(subjectId, None));
    if Wanted(normalize, q.identifiers) == {} {
      SelectedIsExact(records, keep);
      assert forall e :: e in records ==> !keep(e);
      FilterNone(keep, records);
    } else {
      var resume := RepositoryCursor(q);
      FilterAgrees(Both(RepositoryKeeps(normalize, q), AfterCursor(resume)), Both(keep, AfterCursor(resume)), records);
      PageAt(records, keep, resume, MAX_LIST_LIMIT, k);
    }
  }

  /** A full page with more behind it ends in a request with a blank id, whose cursor the repository ignores. */
  ghost predicate BlankPageEnd(all: seq<Request>, k: nat)
  {
    0 < k < |all| && k % MAX_LIST_LIMIT == 0 && all[k - 1].id == ""
  }

  /**
   * `collectRequestIdsForSubject` terminates on every store. It succeeds exactly when at most the cap's number of
   * requests match and no page ends in a blank id, and then returns every matching id once. Behind a blank id it
   * starts over until the cap stops it.
   */
  method CollectRequestIds(normalize: string -> string, records: seq<Request>, subjectId: string)
    returns (r: Result<seq<string>, CollectError>)
    requires UniqueIds(records)
    ensures r.Ok? <==>
              && |SubjectRequests(normalize, records, subjectId)| <= 10_000
              && !exists k :: BlankPageEnd(AllOf(normalize, records, subjectId), k)
    ensures r.Err? ==> r.error == TooManyRequests(10_000)
    ensures r.Ok? ==> Distinct(r.value)
    ensures r.Ok? ==>
              forall id :: id in r.value <==>
                exists e :: e in SubjectRequests(normalize, records, subjectId) && e.id == id
  {
    hide AllOf, ListBySubject, SubjectRequests, UniqueIds;
    ghost var all := AllOf(normalize, records, subjectId);
    AllOfIsExact(normalize, records, subjectId);
    var collected: seq<string> := [];
    var cursor: Option<Cursor> := None;
    var more := true;
    ghost var at: nat := 0;
    ghost var blank: nat := 0;
    while more
      invariant |collected| <= SUBJECT_REQUEST_EXPANSION_CAP
      invariant at <= |all|
      invariant more ==> ResumesAt(cursor, all, at) && at % MAX_LIST_LIMIT == 0
      invariant blank == 0 ==> at == |collected| && collected == Ids(all[..at])
      invariant blank == 0 ==> forall k: nat :: k <= at ==> !BlankPageEnd(all, k)
      invariant blank > 0 ==> more && BlankPageEnd(all, blank) && at < blank
      invariant !more ==> at == |all|
      decreases SUBJECT_REQUEST_EXPANSION_CAP - |collected|, more
    {
      SubjectPage(normalize, records, subjectId, cursor, at);
      var page := ListBySubject(normalize, records, QueryFor(subjectId, cursor));
      collected := collected + Ids(page.items);
      ghost var next: nat := if at + MAX_LIST_LIMIT < |all| then at + MAX_LIST_LIMIT else |all|;
      if |collected| > SUBJECT_REQUEST_EXPANSION_CAP {
        return Err(TooManyRequests(SUBJECT_REQUEST_EXPANSION_CAP));
      }
      cursor := page.nextCursor;
      more := cursor.Some?;
      if more && cursor.value.id == "" {
        at, blank := 0, if blank == 0 then next else blank;
      } else {
        at := next;
      }
    }
    assert all[..|collected|] == all;
    r := Ok(collected);
  }
}
