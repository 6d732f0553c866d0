/**
 * The depth-first check that a value can be written as JSON (core/chat.ts), over a finite heap of objects that may
 * be shared or cyclic. The set of objects on the current path is one mutable cell, as in the source.
 */
module JsonSerializable {
  import opened Basics

  /** A JavaScript value: null, a string/number/boolean, another primitive kind, or a reference. */
  datatype Value = Null | Primitive | Unsupported(kind: string) | Reference(ref: nat)

  /** An array, or an object with whether its prototype is plain, whether it has a `toJSON`, and its entries. */
  datatype Node = ArrayNode(entries: seq<Value>) | ObjectNode(plain: bool, toJson: bool, entries: seq<Value>)

  type Heap = map<nat, Node>

  ghost predicate InHeap(heap: Heap, v: Value)
  {
    v.Reference? ==> v.ref in heap
  }

  ghost predicate Closed(heap: Heap)
  {
    forall r :: r in heap ==> forall i :: 0 <= i < |heap[r].entries| ==> InHeap(heap, heap[r].entries[i])
  }

  /** A failure with the path of entry positions from the root to the value it is about. */
  datatype Failure = Circular(path: seq<nat>) | NotSerializable(path: seq<nat>)

  // ----- The check as a function of the set of objects on the path -----

  function Check(heap: Heap, v: Value, path: seq<nat>, seen: set<nat>): Option<Failure>
    requires Closed(heap) && InHeap(heap, v)
    decreases |heap.Keys - seen|, 0, 0
  {
    match v
    case Null => None
    case Primitive => None
    case Unsupported(_) => Some(NotSerializable(path))
    case Reference(r) =>
      if r in seen then Some(Circular(path))
      else
        assert heap.Keys - (seen + {r}) < heap.Keys - seen by { assert r in heap.Keys - seen; }
        Smaller(heap.Keys - (seen + {r}), heap.Keys - seen);
        match heap[r]
        case ArrayNode(entries) => CheckEntries(heap, entries, 0, path, seen + {r})
        case ObjectNode(plain, toJson, entries) =>
          if toJson then None
          else if !plain then Some(NotSerializable(path))
          else CheckEntries(heap, entries, 0, path, seen + {r})
  }

  function CheckEntries(heap: Heap, entries: seq<Value>, i: nat, path: seq<nat>, seen: set<nat>): Option<Failure>
    requires Closed(heap) && i <= |entries| && forall k :: 0 <= k < |entries| ==> InHeap(heap, entries[k])
    decreases |heap.Keys - seen|, 1, |entries| - i
  {
    if i == |entries| then None
    else
      var r := Check(heap, entries[i], path + [i], seen);
      if r.Some? then r else CheckEntries(heap, entries, i + 1, path, seen)
  }

  lemma Smaller(a: set<nat>, b: set<nat>)
    requires a < b
    ensures |a| < |b|
  {
    assert b == a + (b - a);
    assert |b| == |a| + |b - a|;
  }

  // ----- The check as written: one shared cell, entered and left around the entries -----

  class Seen {
    var refs: set<nat>

    constructor ()
      ensures refs == {}
    {
      refs := {};
    }
  }

  method ValidateJsonSerializable(heap: Heap, value: Value, path: seq<nat>, seen: Seen)
    returns (failure: Option<Failure>)
    requires Closed(heap) && InHeap(heap, value)
    modifies seen
    ensures failure == Check(heap, value, path, old(seen.refs))
    ensures failure.None? ==> seen.refs == old(seen.refs)
    decreases |heap.Keys - seen.refs|, 1
  {
    match value
    case Null => failure := None;
    case Primitive => failure := None;
    case Unsupported(_) => failure := Some(NotSerializable(path));
    case Reference(r) =>
      if r in seen.refs {
        return Some(Circular(path));
      }
      match heap[r] {
        case ArrayNode(entries) =>
          failure := ValidateEntries(heap, r, entries, path, seen);
        case ObjectNode(plain, toJson, entries) =>
          if toJson {
            return None;
          }
          if !plain {
            return Some(NotSerializable(path));
          }
          failure := ValidateEntries(heap, r, entries, path, seen);
      }
  }

  /** Adds the object to the path, visits its entries in order, and takes it off again unless an entry fails. */
  method ValidateEntries(heap: Heap, ref: nat, entries: seq<Value>, path: seq<nat>, seen: Seen)
    returns (failure: Option<Failure>)
    requires Closed(heap) && ref in heap && ref !in seen.refs
    requires forall k :: 0 <= k < |entries| ==> InHeap(heap, entries[k])
    modifies seen
    ensures failure == CheckEntries(heap, entries, 0, path, old(seen.refs) + {ref})
    ensures failure.None? ==> seen.refs == old(seen.refs)
    decreases |heap.Keys - seen.refs|, 0
  {
    ghost var before := seen.refs;
    seen.refs := seen.refs + {ref};
    assert ref in heap.Keys - before && heap.Keys - seen.refs < heap.Keys - before;
    Smaller(heap.Keys - seen.refs, heap.Keys - before);
    var index := 0;
    while index < |entries|
      invariant index <= |entries|
      invariant seen.refs == before + {ref}
      invariant CheckEntries(heap, entries, 0, path, before + {ref})
             == CheckEntries(heap, entries, index, path, before + {ref})
    {
      failure := ValidateJsonSerializable(heap, entries[index], path + [index], seen);
      if failure.Some? {
        return;
      }
      index := index + 1;
    }
    seen.refs := seen.refs - {ref};
    assert seen.refs == before;
    failure := None;
  }

  // ----- What the check decides -----

  /** The values JSON writing visits from `v`: nothing inside an object that has a `toJSON` or is not plain. */
  function Children(heap: Heap, v: Value): seq<Value>
  {
    if !v.Reference? || v.ref !in heap then []
    else match heap[v.ref]
      case ArrayNode(entries) => entries
      case ObjectNode(plain, toJson, entries) => if plain && !toJson then entries else []
  }

  predicate NotWritable(heap: Heap, v: Value)
  {
    || v.Unsupported?
    || (v.Reference? && v.ref in heap && heap[v.ref].ObjectNode? && !heap[v.ref].plain && !heap[v.ref].toJson)
  }

  ghost predicate Walk(heap: Heap, ws: seq<Value>)
  {
    |ws| > 0 && forall k :: 0 <= k < |ws| - 1 ==> ws[k + 1] in Children(heap, ws[k])
  }

  /** No walk from `v` meets a value that cannot be written, or comes back to an object it has passed. */
  ghost predicate Serializable(heap: Heap, v: Value)
  {
    forall ws: seq<Value> :: Walk(heap, ws) && ws[0] == v ==>
      && (forall k :: 0 <= k < |ws| ==> !NotWritable(heap, ws[k]))
      && (forall j, k :: 0 <= j < k < |ws| && ws[j].Reference? ==> ws[j] != ws[k])
  }

  lemma {:induction false} EntriesAllPass(heap: Heap, entries: seq<Value>, i: nat, path: seq<nat>, seen: set<nat>,
                                          k: nat)
    requires Closed(heap) && i <= k < |entries| && forall k :: 0 <= k < |entries| ==> InHeap(heap, entries[k])
    requires CheckEntries(heap, entries, i, path, seen).None?
    ensures Check(heap, entries[k], path + [k], seen).None?
    decreases k - i
  {
    if i < k {
      EntriesAllPass(heap, entries, i + 1, path, seen, k);
    }
  }

  /** A passed check: every walk is writable, avoids the objects already on the path, and never repeats one. */
  lemma {:induction false} PassedWalksAreClean(heap: Heap, v: Value, path: seq<nat>, seen: set<nat>, ws: seq<Value>)
    requires Closed(heap) && InHeap(heap, v) && Check(heap, v, path, seen).None?
    requires Walk(heap, ws) && ws[0] == v
    ensures forall k :: 0 <= k < |ws| ==> !NotWritable(heap, ws[k])
    ensures forall k :: 0 <= k < |ws| && ws[k].Reference? ==> ws[k].ref !in seen
    ensures forall j, k :: 0 <= j < k < |ws| && ws[j].Reference? ==> ws[j] != ws[k]
    decreases |ws|
  {
    if |ws| > 1 {
      var entries := Children(heap, v);
      assert ws[1] in entries;
      var k :| 0 <= k < |entries| && entries[k] == ws[1];
      EntriesAllPass(heap, entries, 0, path, seen + {v.ref}, k);
      var rest := ws[1..];
      PassedWalksAreClean(heap, ws[1], path + [k], seen + {v.ref}, rest);
      assert forall m :: 1 <= m < |ws| ==> ws[m] == rest[m - 1];
    }
  }

  /** `ws` is the walk from the root of `path` that takes the entry positions in `steps`. */
  ghost predicate Follows(heap: Heap, ws: seq<Value>, steps: seq<nat>)
  {
    && |ws| == |steps| + 1
    && forall k :: 0 <= k < |steps| ==>
         steps[k] < |Children(heap, ws[k])| && ws[k + 1] == Children(heap, ws[k])[steps[k]]
  }

  /** What a failure at the end of a walk means. */
  ghost predicate Explains(heap: Heap, failure: Failure, ws: seq<Value>, seen: set<nat>)
    requires |ws| > 0
  {
    var last := ws[|ws| - 1];
    match failure
    case NotSerializable(_) => NotWritable(heap, last)
    case Circular(_) => last.Reference? && (last.ref in seen || exists k :: 0 <= k < |ws| - 1 && ws[k] == last)
  }

  lemma {:induction false} FirstFailingEntry(heap: Heap, entries: seq<Value>, i: nat, path: seq<nat>, seen: set<nat>)
    returns (k: nat)
    requires Closed(heap) && i <= |entries| && forall k :: 0 <= k < |entries| ==> InHeap(heap, entries[k])
    requires CheckEntries(heap, entries, i, path, seen).Some?
    ensures i <= k < |entries|
    ensures Check(heap, entries[k], path + [k], seen) == CheckEntries(heap, entries, i, path, seen)
    ensures forall j :: i <= j < k ==> Check(heap, entries[j], path + [j], seen).None?
    decreases |entries| - i
  {
    if Check(heap, entries[i], path + [i], seen).Some? {
      k := i;
    } else {
      k := FirstFailingEntry(heap, entries, i + 1, path, seen);
    }
  }

  /** A failed check names, by its path, a value that really is unwritable or already on the way to it. */
  lemma {:induction false} FailureIsExplained(heap: Heap, v: Value, path: seq<nat>, seen: set<nat>)
    returns (ws: seq<Value>)
    requires Closed(heap) && InHeap(heap, v) && Check(heap, v, path, seen).Some?
    ensures var failure := Check(heap, v, path, seen).value;
            && path <= failure.path
            && Follows(heap, ws, failure.path[|path|..]) && ws[0] == v
            && Explains(heap, failure, ws, seen)
    decreases |heap.Keys - seen|
  {
    var failure := Check(heap, v, path, seen).value;
    if v.Unsupported? || v.ref in seen || NotWritable(heap, v) {
      ws := [v];
      assert failure.path == path && failure.path[|path|..] == [];
      hide Check, Closed, Children, CheckEntries, InHeap;
    } else {
      var entries := Children(heap, v);
      assert v.ref in heap.Keys - seen && heap.Keys - (seen + {v.ref}) < heap.Keys - seen;
      Smaller(heap.Keys - (seen + {v.ref}), heap.Keys - seen);
      var k := FirstFailingEntry(heap, entries, 0, path, seen + {v.ref});
      var rest := FailureIsExplained(heap, entries[k], path + [k], seen + {v.ref});
      hide Follows, Children, Closed, InHeap;
      ws := [v] + rest;
      FollowsFromParent(heap, v, k, rest, path, failure.path);
      if failure.Circular? { CircularFromParent(rest, v, seen); }
    }
  }

  lemma FollowsFromParent(heap: Heap, v: Value, k: nat, rest: seq<Value>, path: seq<nat>, full: seq<nat>)
    requires k < |Children(heap, v)| && path + [k] <= full
    requires Follows(heap, rest, full[|path| + 1..]) && rest[0] == Children(heap, v)[k]
    ensures path <= full && Follows(heap, [v] + rest, full[|path|..])
  {
    assert full[|path|] == k;
    assert full[|path|..] == [k] + full[|path| + 1..];
  }

  lemma CircularFromParent(rest: seq<Value>, v: Value, seen: set<nat>)
    requires |rest| > 0 && v.Reference?
    requires var last := rest[|rest| - 1];
             last.Reference? && (last.ref in seen + {v.ref} || exists k :: 0 <= k < |rest| - 1 && rest[k] == last)
    ensures var ws, last := [v] + rest, rest[|rest| - 1];
            last.ref in seen || exists k :: 0 <= k < |ws| - 1 && ws[k] == last
  {
    var ws, last := [v] + rest, rest[|rest| - 1];
    if last.ref == v.ref {
      assert ws[0] == last;
    } else if last.ref !in seen {
      var k :| 0 <= k < |rest| - 1 && rest[k] == last;
      assert ws[k + 1] == last;
    }
  }

  lemma FollowedIsWalk(heap: Heap, ws: seq<Value>, steps: seq<nat>)
    requires Follows(heap, ws, steps)
    ensures Walk(heap, ws)
  {
    forall k | 0 <= k < |ws| - 1 ensures ws[k + 1] in Children(heap, ws[k]) {
      assert ws[k + 1] == Children(heap, ws[k])[steps[k]];
    }
  }

  /**
   * On every finite heap, cyclic ones included, the check accepts a value exactly when no cycle and no unwritable
   * value is reachable from it; objects reached twice without a cycle are accepted.
   */
  lemma AcceptsExactlySerializable(heap: Heap, v: Value)
    requires Closed(heap) && InHeap(heap, v)
    ensures Check(heap, v, [], {}).None? <==> Serializable(heap, v)
  {
    if Check(heap, v, [], {}).None? {
      forall ws: seq<Value> | Walk(heap, ws) && ws[0] == v
        ensures forall k :: 0 <= k < |ws| ==> !NotWritable(heap, ws[k])
        ensures forall j, k :: 0 <= j < k < |ws| && ws[j].Reference? ==> ws[j] != ws[k]
      {
        PassedWalksAreClean(heap, v, [], {}, ws);
      }
    } else {
      var ws := FailureIsExplained(heap, v, [], {});
      FollowedIsWalk(heap, ws, Check(heap, v, [], {}).value.path[0..]);
    }
  }

  /** The check as `toJsonValue` starts it, with an empty path. */
  method CheckedForJson(heap: Heap, value: Value) returns (failure: Option<Failure>)
    requires Closed(heap) && InHeap(heap, value)
    ensures failure.None? <==> Serializable(heap, value)
    ensures failure.Some? ==>
              exists ws :: Follows(heap, ws, failure.value.path) && ws[0] == value
                        && Explains(heap, failure.value, ws, {})
  {
    var seen := new Seen();
    failure := ValidateJsonSerializable(heap, value, [], seen);
    AcceptsExactlySerializable(heap, value);
    if failure.Some? {
      ghost var ws := FailureIsExplained(heap, value, [], {});
      assert failure.value.path[0..] == failure.value.path;
    }
  }
}
