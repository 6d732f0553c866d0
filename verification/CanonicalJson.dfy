/**
 * The canonical JSON text hashed into the audit chain (hash-chain.ts).
 *
 * An object is the sequence of its members in insertion order, so that sorting the keys is visible.
 * A number is represented by the text `JSON.stringify` prints for it.
 */
module CanonicalJson {
  import opened Basics
  import opened Sorting
  import Text

  datatype Json =
    | Null
    | Bool(b: bool)
    | Num(text: string)
    | Str(s: string)
    | Arr(items: seq<Json>)
    | Obj(members: seq<Member>)

  datatype Member = Member(key: string, value: Json)

  const NUMBER_CHARS := "+-.0123456789eE"

  ghost predicate NumberText(t: string)
  {
    t != "" && (t[0] == '-' || t[0] in Text.DIGITS) && forall c :: c in t ==> c in NUMBER_CHARS
  }

  ghost predicate UniqueKeys(ms: seq<Member>)
  {
    forall i, j :: 0 <= i < j < |ms| ==> ms[i].key != ms[j].key
  }

  /** What every JavaScript JSON value satisfies: number texts are numbers and keys do not repeat. */
  ghost predicate WellFormed(v: Json)
  {
    match v
    case Num(t) => NumberText(t)
    case Arr(items) => forall i :: 0 <= i < |items| ==> WellFormed(items[i])
    case Obj(ms) => UniqueKeys(ms) && forall i :: 0 <= i < |ms| ==> WellFormed(ms[i].value)
    case _ => true
  }

  // ----- Meaning: a JSON value up to the order of object keys -----

  datatype Value =
    | VNull
    | VBool(b: bool)
    | VNum(text: string)
    | VStr(s: string)
    | VArr(items: seq<Value>)
    | VObj(fields: map<string, Value>)

  function Meaning(v: Json): Value
    decreases v, 1
  {
    match v
    case Null => VNull
    case Bool(b) => VBool(b)
    case Num(t) => VNum(t)
    case Str(s) => VStr(s)
    case Arr(items) => VArr(seq(|items|, i requires 0 <= i < |items| => Meaning(items[i])))
    case Obj(ms) => VObj(Fields(ms))
  }

  function Fields(ms: seq<Member>): map<string, Value>
    decreases ms, 0
  {
    if ms == [] then map[] else Fields(ms[1..])[ms[0].key := Meaning(ms[0].value)]
  }

  lemma {:induction false} FieldsAt(ms: seq<Member>, i: nat)
    requires UniqueKeys(ms) && i < |ms|
    ensures ms[i].key in Fields(ms) && Fields(ms)[ms[i].key] == Meaning(ms[i].value)
  {
    if i > 0 { FieldsAt(ms[1..], i - 1); }
  }

  lemma {:induction false} FieldsKeys(ms: seq<Member>, k: string)
    requires k in Fields(ms)
    ensures exists i :: 0 <= i < |ms| && ms[i].key == k
  {
    if ms != [] && ms[0].key != k {
      FieldsKeys(ms[1..], k);
      var i :| 0 <= i < |ms[1..]| && ms[1..][i].key == k;
      assert ms[i + 1].key == k;
    }
  }

  /** Two member lists mean the same object exactly when they agree member by member. */
  lemma SameFields(ms: seq<Member>, ns: seq<Member>)
    requires UniqueKeys(ms) && UniqueKeys(ns)
    requires forall i :: 0 <= i < |ms| ==>
               exists j :: 0 <= j < |ns| && ns[j].key == ms[i].key && Meaning(ns[j].value) == Meaning(ms[i].value)
    requires forall j :: 0 <= j < |ns| ==> exists i :: 0 <= i < |ms| && ms[i].key == ns[j].key
    ensures Fields(ms) == Fields(ns)
  {
    forall k | k in Fields(ms)
      ensures k in Fields(ns) && Fields(ns)[k] == Fields(ms)[k]
    {
      FieldsKeys(ms, k);
      var i :| 0 <= i < |ms| && ms[i].key == k;
      FieldsAt(ms, i);
      var j :| 0 <= j < |ns| && ns[j].key == ms[i].key && Meaning(ns[j].value) == Meaning(ms[i].value);
      FieldsAt(ns, j);
    }
    forall k | k in Fields(ns)
      ensures k in Fields(ms)
    {
      FieldsKeys(ns, k);
      var j :| 0 <= j < |ns| && ns[j].key == k;
      var i :| 0 <= i < |ms| && ms[i].key == ns[j].key;
      FieldsAt(ms, i);
    }
  }

  // ----- canonicalize -----

  predicate ByKey(a: Member, b: Member)
  {
    Text.Less(a.key, b.key)
  }

  lemma ByKeyOrder()
    ensures WeakOrder(ByKey)
  {
    Text.LessOrder();
    forall a, b, c | ByKey(a, c) ensures ByKey(a, b) || ByKey(b, c) {
      assert a.key == b.key || Text.Less(a.key, b.key) || Text.Less(b.key, a.key);
    }
  }

  function Canonical(v: Json): Json
    decreases v, 1
  {
    match v
    case Arr(items) => Arr(seq(|items|, i requires 0 <= i < |items| => Canonical(items[i])))
    case Obj(ms) => Obj(Sort(ByKey, CanonicalMembers(ms)))
    case _ => v
  }

  function CanonicalMembers(ms: seq<Member>): (r: seq<Member>)
    ensures |r| == |ms|
    ensures forall i :: 0 <= i < |ms| ==> r[i].key == ms[i].key && r[i].value == Canonical(ms[i].value)
    decreases ms, 0
  {
    seq(|ms|, i requires 0 <= i < |ms| => Member(ms[i].key, Canonical(ms[i].value)))
  }

  /** Sorting members with distinct keys: the result is strictly ordered and holds the same members. */
  lemma SortedMembers(ms: seq<Member>)
    requires UniqueKeys(ms)
    ensures StrictlySorted(ByKey, Sort(ByKey, ms))
    ensures UniqueKeys(Sort(ByKey, ms))
    ensures forall m :: m in Sort(ByKey, ms) <==> m in ms
  {
    var t := Sort(ByKey, ms);
    ByKeyOrder();
    SortSorts(ByKey, ms);
    SortMembers(ByKey, ms);
    SortPermutes(ByKey, ms);
    forall i, j | 0 <= i < j < |t|
      ensures ByKey(t[i], t[j])
    {
      if t[i].key == t[j].key {
        SameKeySameMember(ms, t[i], t[j]);
        RepeatedElement(t, i, j);
        DistinctMultiplicity(ms, t[i]);
        assert false;
      }
      Text.LessTotal(t[i].key, t[j].key);
    }
    forall i, j | 0 <= i < j < |t| ensures t[i].key != t[j].key {
      Text.LessIrreflexive(t[i].key);
      assert ByKey(t[i], t[j]);
    }
  }

  /** Every object, at any depth, has its keys in ascending order. */
  ghost predicate KeysAscend(v: Json)
    decreases v
  {
    match v
    case Arr(items) => forall i :: 0 <= i < |items| ==> KeysAscend(items[i])
    case Obj(ms) =>
      && (forall i, j :: 0 <= i < j < |ms| ==> Text.Less(ms[i].key, ms[j].key))
      && forall i :: 0 <= i < |ms| ==> KeysAscend(ms[i].value)
    case _ => true
  }

  lemma {:induction false} CanonicalKeysAscend(v: Json)
    requires WellFormed(v)
    ensures KeysAscend(Canonical(v))
    decreases v
  {
    match v
    case Arr(items) =>
      forall i | 0 <= i < |items| ensures KeysAscend(Canonical(items[i])) { CanonicalKeysAscend(items[i]); }
    case Obj(ms) =>
      var cs := CanonicalMembers(ms);
      var ts := Sort(ByKey, cs);
      forall i | 0 <= i < |ms| ensures KeysAscend(cs[i].value) { CanonicalKeysAscend(ms[i].value); }
      SortedMembers(cs);
      forall j | 0 <= j < |ts| ensures KeysAscend(ts[j].value) { assert ts[j] in cs; }
      forall i, j | 0 <= i < j < |ts| ensures Text.Less(ts[i].key, ts[j].key) { assert ByKey(ts[i], ts[j]); }
    case _ =>
  }

  lemma SameKeySameMember(ms: seq<Member>, a: Member, b: Member)
    requires UniqueKeys(ms) && a in ms && b in ms && a.key == b.key
    ensures a == b
  {
  }

  lemma SortingKeepsFields(ms: seq<Member>)
    requires UniqueKeys(ms)
    requires forall i :: 0 <= i < |ms| ==>
               WellFormed(Canonical(ms[i].value)) && Meaning(Canonical(ms[i].value)) == Meaning(ms[i].value)
    ensures var ts := Sort(ByKey, CanonicalMembers(ms));
            && UniqueKeys(ts)
            && (forall i :: 0 <= i < |ts| ==> WellFormed(ts[i].value))
            && Fields(ts) == Fields(ms)
  {
    var cs := CanonicalMembers(ms);
    var ts := Sort(ByKey, cs);
    SortedMembers(cs);
    forall j | 0 <= j < |ts|
      ensures WellFormed(ts[j].value)
      ensures exists i :: 0 <= i < |ms| && ms[i].key == ts[j].key && Meaning(ms[i].value) == Meaning(ts[j].value)
    {
      assert ts[j] in cs;
      var i :| 0 <= i < |cs| && cs[i] == ts[j];
      assert ms[i].key == ts[j].key;
    }
    forall i | 0 <= i < |ms|
      ensures exists j :: 0 <= j < |ts| && ts[j].key == ms[i].key
    {
      assert cs[i] in ts;
    }
    SameFields(ts, ms);
  }

  lemma {:induction false} CanonicalKeepsMeaning(v: Json)
    requires WellFormed(v)
    ensures WellFormed(Canonical(v))
    ensures Meaning(Canonical(v)) == Meaning(v)
  {
    match v
    case Arr(items) =>
      forall i | 0 <= i < |items|
        ensures WellFormed(Canonical(items[i])) && Meaning(Canonical(items[i])) == Meaning(items[i])
      {
        CanonicalKeepsMeaning(items[i]);
      }
      assert Meaning(Canonical(v)).items == Meaning(v).items;
    case Obj(ms) =>
      forall i | 0 <= i < |ms|
        ensures WellFormed(Canonical(ms[i].value)) && Meaning(Canonical(ms[i].value)) == Meaning(ms[i].value)
      {
        CanonicalKeepsMeaning(ms[i].value);
      }
      SortingKeepsFields(ms);
    case _ =>
  }

  /** Values equal up to key order have one canonical form. */
  lemma {:induction false} MeaningFixesCanonical(v: Json, w: Json)
    requires WellFormed(v) && WellFormed(w)
    requires Meaning(v) == Meaning(w)
    ensures Canonical(v) == Canonical(w)
  {
    match v
    case Arr(items) =>
      assert |Meaning(v).items| == |Meaning(w).items|;
      forall i | 0 <= i < |items|
        ensures Canonical(items[i]) == Canonical(w.items[i])
      {
        assert Meaning(v).items[i] == Meaning(w).items[i];
        MeaningFixesCanonical(items[i], w.items[i]);
      }
      assert Canonical(v).items == Canonical(w).items;
    case Obj(ms) =>
      var ns := w.members;
      forall i, j | 0 <= i < |ms| && 0 <= j < |ns| && ms[i].key == ns[j].key
        ensures Canonical(ms[i].value) == Canonical(ns[j].value)
      {
        FieldsAt(ms, i);
        FieldsAt(ns, j);
        MeaningFixesCanonical(ms[i].value, ns[j].value);
      }
      var cs, ds := CanonicalMembers(ms), CanonicalMembers(ns);
      forall m ensures m in cs <==> m in ds {
        if m in cs { MemberCarries(ms, ns, m); }
        if m in ds { MemberCarries(ns, ms, m); }
      }
      SortedMembers(cs);
      SortedMembers(ds);
      ByKeyOrder();
      StrictlySortedUnique(ByKey, Sort(ByKey, cs), Sort(ByKey, ds));
    case _ =>
  }

  lemma MemberCarries(ms: seq<Member>, ns: seq<Member>, m: Member)
    requires UniqueKeys(ms) && UniqueKeys(ns) && Fields(ms) == Fields(ns)
    requires forall i, j :: 0 <= i < |ms| && 0 <= j < |ns| && ms[i].key == ns[j].key
               ==> Canonical(ms[i].value) == Canonical(ns[j].value)
    requires m in CanonicalMembers(ms)
    ensures m in CanonicalMembers(ns)
  {
    var i :| 0 <= i < |ms| && CanonicalMembers(ms)[i] == m;
    FieldsAt(ms, i);
    FieldsKeys(ns, ms[i].key);
    var j :| 0 <= j < |ns| && ns[j].key == ms[i].key;
    assert CanonicalMembers(ns)[j] == m;
  }

  // ----- The loop that builds the canonical value -----

  function Keys(ms: seq<Member>): (r: seq<string>)
    ensures |r| == |ms|
  {
    seq(|ms|, i requires 0 <= i < |ms| => ms[i].key)
  }

  lemma {:induction false} InsertKeys(m: Member, ms: seq<Member>)
    ensures Keys(Insert(ByKey, m, ms)) == Insert(Text.Less, m.key, Keys(ms))
  {
    if ms != [] && ByKey(ms[0], m) {
      InsertKeys(m, ms[1..]);
      assert Keys(ms)[1..] == Keys(ms[1..]);
    }
  }

  lemma {:induction false} SortKeys(ms: seq<Member>)
    ensures Keys(Sort(ByKey, ms)) == Sort(Text.Less, Keys(ms))
  {
    if ms != [] {
      SortKeys(ms[1..]);
      InsertKeys(ms[0], Sort(ByKey, ms[1..]));
      assert Keys(ms)[1..] == Keys(ms[1..]);
    }
  }

  function ValueAt(ms: seq<Member>, key: string): (v: Json)
    requires exists i :: 0 <= i < |ms| && ms[i].key == key
    ensures Member(key, v) in ms
  {
    if ms[0].key == key then assert ms[0] == Member(key, ms[0].value); ms[0].value
    else
      assert exists i :: 0 <= i < |ms[1..]| && ms[1..][i].key == key by {
        var i :| 0 <= i < |ms| && ms[i].key == key;
        assert ms[1..][i - 1].key == key;
      }
      ValueAt(ms[1..], key)
  }

  lemma KeysOfTarget(ms: seq<Member>)
    ensures Sort(Text.Less, Keys(ms)) == Keys(Sort(ByKey, CanonicalMembers(ms)))
  {
    SortKeys(CanonicalMembers(ms));
    assert Keys(CanonicalMembers(ms)) == Keys(ms);
  }

  /** The member the loop looks up for its `k`-th key is the one canonicalised at position `k`. */
  lemma KeyHasMember(ms: seq<Member>, k: nat)
    requires UniqueKeys(ms) && k < |Sort(Text.Less, Keys(ms))|
    ensures var keys, target := Sort(Text.Less, Keys(ms)), Sort(ByKey, CanonicalMembers(ms));
            && k < |target|
            && (exists i :: 0 <= i < |ms| && ms[i].key == keys[k])
            && target[k] == Member(keys[k], Canonical(ValueAt(ms, keys[k])))
  {
    var target := Sort(ByKey, CanonicalMembers(ms));
    KeysOfTarget(ms);
    SortMembers(ByKey, CanonicalMembers(ms));
    assert target[k] in CanonicalMembers(ms);
    var i :| 0 <= i < |ms| && CanonicalMembers(ms)[i] == target[k];
    assert ms[i].key == target[k].key;
    assert Member(target[k].key, ValueAt(ms, target[k].key)) == ms[i];
  }

  /** `canonicalize`: arrays item by item, objects key by sorted key. */
  method Canonicalize(value: Json) returns (r: Json)
    requires WellFormed(value)
    ensures r == Canonical(value)
    decreases value, 1
  {
    match value
    case Arr(items) =>
      var out := CanonicalizeItems(items);
      r := Arr(out);
    case Obj(ms) =>
      var sorted := FillSorted(ms);
      r := Obj(sorted);
    case _ =>
      r := value;
  }

  method CanonicalizeItems(items: seq<Json>) returns (out: seq<Json>)
    requires forall i :: 0 <= i < |items| ==> WellFormed(items[i])
    ensures |out| == |items| && forall i :: 0 <= i < |items| ==> out[i] == Canonical(items[i])
    decreases items, 0
  {
    out := [];
    for i := 0 to |items|
      invariant |out| == i
      invariant forall k :: 0 <= k < i ==> out[k] == Canonical(items[k])
    {
      var c := Canonicalize(items[i]);
      out := out + [c];
    }
  }

  /** The loop over the sorted keys, filling the result one member at a time. */
  method FillSorted(ms: seq<Member>) returns (sorted: seq<Member>)
    requires UniqueKeys(ms) && forall i :: 0 <= i < |ms| ==> WellFormed(ms[i].value)
    ensures sorted == Sort(ByKey, CanonicalMembers(ms))
    decreases ms, 0
  {
    hide Sort, Canonical, CanonicalMembers;
    var keys := Sort(Text.Less, Keys(ms));
    sorted := [];
    ghost var target := Sort(ByKey, CanonicalMembers(ms));
    KeysOfTarget(ms);
    for k := 0 to |keys|
      invariant |sorted| == k
      invariant forall j :: 0 <= j < k ==> sorted[j] == target[j]
    {
      KeyHasMember(ms, k);
      var v := ValueAt(ms, keys[k]);
      var c := Canonicalize(v);
      sorted := sorted + [Member(keys[k], c)];
    }
    assert sorted == target;
  }
}
