/**
 * Keyset pagination over (createdAt, id), newest first: the paging shared by the audit log and the
 * subject lookup (minimal-persistence.ts, subjects.ts). Times are integers; ids are in code-point order.
 */
module Keyset {
  import opened Basics
  import opened Sorting
  import Text

  datatype Cursor = Cursor(createdAt: int, id: string)

  datatype Entry<T> = Entry(createdAt: int, id: string, body: T)

  datatype Page<T> = Page(items: seq<Entry<T>>, limit: int, nextCursor: Option<Cursor>)

  const DEFAULT_LIST_LIMIT := 50
  const MAX_LIST_LIMIT := 500

  function BoundedLimit(value: Option<int>): (r: nat)
    ensures 1 <= r <= MAX_LIST_LIMIT
    ensures value.Some? && 1 <= value.value <= MAX_LIST_LIMIT ==> r == value.value
    ensures value.None? ==> r == 50
    ensures value.Some? && value.value < 1 ==> r == 1
    ensures value.Some? && value.value > 500 ==> r == 500
  {
    if value.None? then DEFAULT_LIST_LIMIT
    else if value.value < 1 then 1
    else if value.value > MAX_LIST_LIMIT then MAX_LIST_LIMIT
    else value.value
  }

  function KeyOf<T>(e: Entry<T>): Cursor
  {
    Cursor(e.createdAt, e.id)
  }

  predicate Below(a: Cursor, b: Cursor)
  {
    a.createdAt < b.createdAt || (a.createdAt == b.createdAt && Text.Less(a.id, b.id))
  }

  lemma BelowOrder()
    ensures forall a :: !Below(a, a)
    ensures forall a, b, c :: Below(a, b) && Below(b, c) ==> Below(a, c)
    ensures forall a, b :: a == b || Below(a, b) || Below(b, a)
  {
    Text.LessOrder();
  }

  predicate NewestFirst<T>(a: Entry<T>, b: Entry<T>)
  {
    Below(KeyOf(b), KeyOf(a))
  }

  lemma NewestFirstOrder<T(!new)>()
    ensures WeakOrder<Entry<T>>(NewestFirst)
  {
    BelowOrder();
    forall a: Entry<T>, b: Entry<T>, c: Entry<T> | NewestFirst(a, c)
      ensures NewestFirst(a, b) || NewestFirst(b, c)
    {
      assert KeyOf(a) == KeyOf(b) || Below(KeyOf(a), KeyOf(b)) || Below(KeyOf(b), KeyOf(a));
    }
  }

  ghost predicate UniqueIds<T>(s: seq<Entry<T>>)
  {
    forall i, j :: 0 <= i < j < |s| ==> s[i].id != s[j].id
  }

  /** The cursor filter of both list queries. */
  function AfterCursor<T>(cursor: Option<Cursor>): Entry<T> -> bool
  {
    (e: Entry<T>) => cursor.None? || Below(KeyOf(e), cursor.value)
  }

  /** Everything a query selects, in the order it is returned. */
  function Selected<T>(store: seq<Entry<T>>, keep: Entry<T> -> bool): seq<Entry<T>>
  {
    Sort(NewestFirst, Filter(keep, store))
  }

  /** `slice(0, end)`: a negative end counts from the back. */
  function SliceTo<T>(s: seq<T>, end: int): (r: seq<T>)
    ensures r <= s
    ensures end >= 0 ==> |r| == if end < |s| then end else |s|
    ensures end < 0 ==> |r| == if |s| + end > 0 then |s| + end else 0
  {
    var stop := if end < 0 then |s| + end else end;
    if stop <= 0 then [] else if stop < |s| then s[..stop] else s
  }

  function PageOf<T>(filtered: seq<Entry<T>>, limit: int): Page<T>
  {
    var items := SliceTo(filtered, limit);
    Page(items, limit,
      if |filtered| > limit && items != [] then Some(KeyOf(items[|items| - 1])) else None)
  }

  /** One page: filter, drop what the cursor has passed, sort, take `limit`, and say where to go on. */
  function ListPage<T>(store: seq<Entry<T>>, keep: Entry<T> -> bool, cursor: Option<Cursor>, limit: nat): Page<T>
  {
    PageOf(Selected(store, Both(keep, AfterCursor(cursor))), limit)
  }

  lemma KeptIsMember<T(!new)>(keep: Entry<T> -> bool, s: seq<Entry<T>>, e: Entry<T>)
    ensures e in Filter(keep, s) <==> e in s && keep(e)
  {
    FilterMembers(keep, s);
  }

  lemma SortedIsMember<T(!new)>(s: seq<Entry<T>>, e: Entry<T>)
    ensures e in Sort(NewestFirst, s) <==> e in s
  {
    SortMembers(NewestFirst, s);
  }

  lemma {:induction false} FilterKeepsIds<T(!new)>(keep: Entry<T> -> bool, s: seq<Entry<T>>)
    requires UniqueIds(s)
    ensures UniqueIds(Filter(keep, s))
  {
    if s != [] {
      FilterKeepsIds(keep, s[1..]);
      FilterMembers(keep, s[1..]);
      var f := Filter(keep, s[1..]);
      forall j | 0 <= j < |f| ensures f[j].id != s[0].id {
        KeptIsMember(keep, s[1..], f[j]);
      }
    }
  }

  lemma {:induction false} InsertKeepsIds<T(!new)>(x: Entry<T>, s: seq<Entry<T>>)
    requires UniqueIds(s) && forall y :: y in s ==> y.id != x.id
    ensures UniqueIds(Insert(NewestFirst, x, s))
  {
    if s != [] && NewestFirst(s[0], x) {
      InsertKeepsIds(x, s[1..]);
      InsertPermutes(NewestFirst, x, s[1..]);
      var r := Insert(NewestFirst, x, s[1..]);
      forall j | 0 <= j < |r| ensures r[j].id != s[0].id {
        assert r[j] in multiset(r);
        assert r[j] == x || r[j] in s[1..];
      }
    }
  }

  lemma {:induction false} SortKeepsIds<T(!new)>(s: seq<Entry<T>>)
    requires UniqueIds(s)
    ensures UniqueIds(Sort(NewestFirst, s))
  {
    if s != [] {
      SortKeepsIds(s[1..]);
      SortMembers(NewestFirst, s[1..]);
      forall y | y in Sort(NewestFirst, s[1..]) ensures y.id != s[0].id {
        SortedIsMember(s[1..], y);
      }
      InsertKeepsIds(s[0], Sort(NewestFirst, s[1..]));
    }
  }

  /** The selection holds exactly the kept records, each once, in strictly descending key order. */
  lemma SelectedIsExact<T(!new)>(store: seq<Entry<T>>, keep: Entry<T> -> bool)
    requires UniqueIds(store)
    ensures StrictlySorted(NewestFirst, Selected(store, keep))
    ensures var s := Selected(store, keep);
            forall i, j :: 0 <= i < j < |s| ==>
              s[i].createdAt > s[j].createdAt || (s[i].createdAt == s[j].createdAt && Text.Less(s[j].id, s[i].id))
    ensures UniqueIds(Selected(store, keep))
    ensures forall e :: e in Selected(store, keep) <==> e in store && keep(e)
    ensures |Selected(store, keep)| == |Filter(keep, store)|
  {
    var f := Filter(keep, store);
    FilterKeepsIds(keep, store);
    FilterMembers(keep, store);
    SortKeepsIds(f);
    SortMembers(NewestFirst, f);
    NewestFirstOrder<T>();
    SortSorts(NewestFirst, f);
    var s := Selected(store, keep);
    forall e ensures e in s <==> e in store && keep(e) {
      SortedIsMember(f, e);
      KeptIsMember(keep, store, e);
    }
    forall i, j | 0 <= i < j < |s| ensures NewestFirst(s[i], s[j]) {
      assert s[i].id != s[j].id && !NewestFirst(s[j], s[i]);
      Text.LessTotal(s[i].id, s[j].id);
    }
  }

  lemma {:induction false} FilterSuffix<T(!new)>(s: seq<T>, k: nat, keep: T -> bool)
    requires k <= |s|
    requires forall i :: 0 <= i < |s| ==> (keep(s[i]) <==> k <= i)
    ensures Filter(keep, s) == s[k..]
  {
    FilterNone(keep, s[..k]);
    FilterAll(keep, s[k..]);
    FilterConcat(keep, s[..k], s[k..]);
    assert s == s[..k] + s[k..];
  }

  ghost predicate CursorAt<T>(cursor: Option<Cursor>, all: seq<Entry<T>>, k: nat)
    requires k <= |all|
  {
    cursor == if k == 0 then None else Some(KeyOf(all[k - 1]))
  }

  /** Filtering by a cursor left at position `k` drops exactly the first `k` selected records. */
  lemma CursorDropsPrefix<T(!new)>(store: seq<Entry<T>>, keep: Entry<T> -> bool, cursor: Option<Cursor>, k: nat)
    requires UniqueIds(store)
    requires k <= |Selected(store, keep)| && CursorAt(cursor, Selected(store, keep), k)
    ensures Selected(store, Both(keep, AfterCursor(cursor))) == Selected(store, keep)[k..]
  {
    var all := Selected(store, keep);
    var after := AfterCursor<T>(cursor);
    FilterTwice(keep, after, store);
    NewestFirstOrder<T>();
    FilterSort(NewestFirst, after, Filter(keep, store));
    SelectedIsExact(store, keep);
    BelowOrder();
    forall i | 0 <= i < |all| ensures after(all[i]) <==> k <= i {
      if k > 0 {
        assert i < k - 1 ==> NewestFirst(all[i], all[k - 1]);
        assert k - 1 < i ==> NewestFirst(all[k - 1], all[i]);
      }
    }
    FilterSuffix(all, k, after);
  }

  /** The page at position `k`, and the cursor it leaves behind. */
  lemma PageAt<T(!new)>(store: seq<Entry<T>>, keep: Entry<T> -> bool, cursor: Option<Cursor>, limit: nat, k: nat)
    requires UniqueIds(store) && limit >= 1
    requires k <= |Selected(store, keep)| && CursorAt(cursor, Selected(store, keep), k)
    ensures var all := Selected(store, keep);
            var page := ListPage(store, keep, cursor, limit);
            var next := if k + limit < |all| then k + limit else |all|;
            && page.items == all[k..next] && page.limit == limit
            && (page.nextCursor.Some? <==> next < |all|)
            && (page.nextCursor.Some? ==> next > k && CursorAt(page.nextCursor, all, next))
  {
    CursorDropsPrefix(store, keep, cursor, k);
  }

  /** Follow `nextCursor` until it runs out: `fuel` pages of `limit` records. */
  function Drain<T>(store: seq<Entry<T>>, keep: Entry<T> -> bool, cursor: Option<Cursor>, limit: nat, fuel: nat)
    : seq<Entry<T>>
    decreases fuel
  {
    if fuel == 0 then []
    else
      var page := ListPage(store, keep, cursor, limit);
      page.items + if page.nextCursor.None? then [] else Drain(store, keep, page.nextCursor, limit, fuel - 1)
  }

  lemma {:induction false} DrainFrom<T(!new)>(
      store: seq<Entry<T>>, keep: Entry<T> -> bool, cursor: Option<Cursor>, limit: nat, fuel: nat, k: nat)
    requires UniqueIds(store) && limit >= 1
    requires k <= |Selected(store, keep)| && CursorAt(cursor, Selected(store, keep), k)
    requires fuel > 0 && |Selected(store, keep)| - k <= limit * fuel
    ensures Drain(store, keep, cursor, limit, fuel) == Selected(store, keep)[k..]
    decreases fuel
  {
    hide ListPage, Selected;
    PageAt(store, keep, cursor, limit, k);
    var all := Selected(store, keep);
    var page := ListPage(store, keep, cursor, limit);
    if k + limit < |all| {
      DrainFrom(store, keep, page.nextCursor, limit, fuel - 1, k + limit);
      assert all[k..] == page.items + all[k + limit..];
    }
  }

  /** Draining an unchanged store returns the selection: nothing missed, nothing twice, in order. */
  lemma DrainIsExact<T(!new)>(store: seq<Entry<T>>, keep: Entry<T> -> bool, limit: nat, fuel: nat)
    requires UniqueIds(store) && limit >= 1
    requires fuel > 0 && |Selected(store, keep)| <= limit * fuel
    ensures Drain(store, keep, None, limit, fuel) == Selected(store, keep)
  {
    DrainFrom(store, keep, None, limit, fuel, 0);
  }
}
