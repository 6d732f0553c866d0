/** Whole runs of configuring, rotating and rolling back: one primary per endpoint, and exact unwinding. */
module SigningKeyRuns {
  import opened Basics
  import opened SigningKeys

  // ----- What the list operations do to each endpoint's stack -----

  lemma RotatedStack(keys: seq<Key>, newPrimary: Key, graceExpiresAt: int, tenantId: string, endpointId: string)
    ensures var same := newPrimary.tenantId == tenantId && newPrimary.endpointId == endpointId;
            var stack := Stack(keys, tenantId, endpointId);
            Stack(Rotated(keys, newPrimary, graceExpiresAt), tenantId, endpointId)
              == if same then Map(Demote(tenantId, endpointId, graceExpiresAt), stack) + [newPrimary] else stack
  {
    var of, demote := Of(tenantId, endpointId), Demote(newPrimary.tenantId, newPrimary.endpointId, graceExpiresAt);
    var stack := Stack(keys, tenantId, endpointId);
    FilterConcat(of, Map(demote, keys), [newPrimary]);
    FilterMap(of, demote, keys);
    FilterMembers(of, keys);
    assert Filter(of, [newPrimary]) == if of(newPrimary) then [newPrimary] else [];
    if !of(newPrimary) {
      forall i | 0 <= i < |stack| ensures demote(stack[i]) == stack[i] { assert stack[i] in stack; }
      assert Map(demote, stack) == stack;
    }
  }

  lemma AppendedStack(keys: seq<Key>, k: Key, tenantId: string, endpointId: string)
    ensures Stack(keys + [k], tenantId, endpointId)
         == Stack(keys, tenantId, endpointId) + if Of(tenantId, endpointId)(k) then [k] else []
  {
    FilterConcat(Of(tenantId, endpointId), keys, [k]);
  }

  /** A rollback acts on its own endpoint's stack as it acts on the list, and on no other stack. */
  lemma RolledBackStack(keys: seq<Key>, r: Rotation, tenantId: string, endpointId: string)
    requires r.previousPrimary.Some? ==> Of(r.tenantId, r.endpointId)(r.previousPrimary.value)
    ensures var rolledBack := RolledBack(keys, r.tenantId, r.endpointId, r.newKeyId, r.previousPrimary);
            var after := Stack(rolledBack, tenantId, endpointId);
            var stack := Stack(keys, tenantId, endpointId);
            after == if r.tenantId == tenantId && r.endpointId == endpointId
                     then RolledBack(stack, tenantId, endpointId, r.newKeyId, r.previousPrimary) else stack
  {
    var of, keep := Of(tenantId, endpointId), NotNewPrimary(r.tenantId, r.endpointId, r.newKeyId);
    var stack := Stack(keys, tenantId, endpointId);
    FiltersCommute(keep, of, keys);
    FilterMembers(of, keys);
    if r.previousPrimary.Some? {
      FilterMap(of, Restore(r.tenantId, r.endpointId, r.previousPrimary.value), Filter(keep, keys));
    }
    if r.tenantId == tenantId && r.endpointId == endpointId {
      SamePrimaryFound(keys, r);
    } else {
      FilterAll(keep, stack);
      if r.previousPrimary.Some? {
        var restore := Restore(r.tenantId, r.endpointId, r.previousPrimary.value);
        forall i | 0 <= i < |stack| ensures restore(stack[i]) == stack[i] { assert stack[i] in stack; }
        assert Map(restore, stack) == stack;
      }
    }
  }

  lemma SamePrimaryFound(keys: seq<Key>, r: Rotation)
    ensures var stack := Stack(keys, r.tenantId, r.endpointId);
            (exists i :: 0 <= i < |keys| && IsNewPrimary(keys[i], r.tenantId, r.endpointId, r.newKeyId))
              <==> (exists i :: 0 <= i < |stack| && IsNewPrimary(stack[i], r.tenantId, r.endpointId, r.newKeyId))
  {
    var stack := Stack(keys, r.tenantId, r.endpointId);
    FilterMembers(Of(r.tenantId, r.endpointId), keys);
    if i :| 0 <= i < |keys| && IsNewPrimary(keys[i], r.tenantId, r.endpointId, r.newKeyId) {
      assert keys[i] in stack;
      var j :| 0 <= j < |stack| && stack[j] == keys[i];
    }
    if j :| 0 <= j < |stack| && IsNewPrimary(stack[j], r.tenantId, r.endpointId, r.newKeyId) {
      assert stack[j] in stack;
      var i :| 0 <= i < |keys| && keys[i] == stack[j];
    }
  }

  /** Rolling back on an ordered stack pops its top when that is the rotated key, and does nothing otherwise. */
  lemma RollbackPops(stack: seq<Key>, r: Rotation)
    requires OnePrimaryOnTop(stack) && UniqueKeyIds(stack)
    requires forall i :: 0 <= i < |stack| ==> Of(r.tenantId, r.endpointId)(stack[i])
    ensures var n := |stack| - 1;
            var after := RolledBack(stack, r.tenantId, r.endpointId, r.newKeyId, r.previousPrimary);
            if n >= 0 && stack[n].id == r.newKeyId
            then after == if r.previousPrimary.Some?
                          then Map(Restore(r.tenantId, r.endpointId, r.previousPrimary.value), stack[..n])
                          else stack[..n]
            else after == stack
  {
    var n := |stack| - 1;
    var keep := NotNewPrimary(r.tenantId, r.endpointId, r.newKeyId);
    if n >= 0 && stack[n].id == r.newKeyId {
      assert stack == stack[..n] + [stack[n]];
      FilterConcat(keep, stack[..n], [stack[n]]);
      FilterAll(keep, stack[..n]);
      assert Filter(keep, [stack[n]]) == [];
      assert IsNewPrimary(stack[n], r.tenantId, r.endpointId, r.newKeyId);
    } else {
      FilterAll(keep, stack);
    }
  }

  // ----- Nested rotations and their rollbacks, in reverse order -----

  datatype Input = Input(
    tenantId: string, endpointId: string, newKeyId: string, newSecret: string, rotatedAt: int, graceExpiresAt: int)

  function NewPrimary(i: Input): Key
  {
    Key(i.tenantId, i.endpointId, i.newKeyId, Primary, i.rotatedAt, None, i.newSecret)
  }

  /** A nested series: rotate, run what is inside, roll that rotation back, then go on. */
  datatype Plan = Done | Rotate(input: Input, inside: Plan, next: Plan)

  function Execute(keys: seq<Key>, plan: Plan): seq<Key>
    decreases plan
  {
    match plan
    case Done => keys
    case Rotate(i, inside, next) =>
      var deep := Execute(Rotated(keys, NewPrimary(i), i.graceExpiresAt), inside);
      var back := RolledBack(deep, i.tenantId, i.endpointId, i.newKeyId,
                             PreviousPrimary(keys, i.tenantId, i.endpointId, i.graceExpiresAt));
      Execute(back, next)
  }

  ghost predicate InOrder(keys: seq<Key>)
  {
    UniqueKeyIds(keys) && forall t, e :: OnePrimaryOnTop(Stack(keys, t, e))
  }

  /** Every rotation is of an endpoint that has keys, with a key id its tenant does not have at that moment. */
  ghost predicate Fits(keys: seq<Key>, plan: Plan)
    decreases plan
  {
    match plan
    case Done => true
    case Rotate(i, inside, next) =>
      && Stack(keys, i.tenantId, i.endpointId) != [] && !HasKeyId(keys, i.tenantId, i.newKeyId)
      && Fits(Rotated(keys, NewPrimary(i), i.graceExpiresAt), inside)
      && Fits(keys, next)
  }

  lemma RotationKeepsOrder(keys: seq<Key>, newPrimary: Key, graceExpiresAt: int)
    requires InOrder(keys) && !HasKeyId(keys, newPrimary.tenantId, newPrimary.id)
    requires newPrimary.role == Primary && newPrimary.expiresAt == None
    ensures InOrder(Rotated(keys, newPrimary, graceExpiresAt))
  {
    forall t, e ensures OnePrimaryOnTop(Stack(Rotated(keys, newPrimary, graceExpiresAt), t, e)) {
      RotatedStack(keys, newPrimary, graceExpiresAt, t, e);
      assert OnePrimaryOnTop(Stack(keys, t, e));
      var stack := Stack(keys, t, e);
      FilterMembers(Of(t, e), keys);
      forall i | 0 <= i < |stack| ensures Of(t, e)(stack[i]) { assert stack[i] in stack; }
    }
  }

  /** Undoing a nested series of rotations in reverse order restores the key list, in order and in every field. */
  lemma {:induction false} NestedRotationsUnwind(keys: seq<Key>, plan: Plan)
    requires InOrder(keys) && Fits(keys, plan)
    ensures Execute(keys, plan) == keys
    decreases plan
  {
    match plan
    case Done =>
    case Rotate(i, inside, next) =>
      assert OnePrimaryOnTop(Stack(keys, i.tenantId, i.endpointId));
      RotationKeepsOrder(keys, NewPrimary(i), i.graceExpiresAt);
      NestedRotationsUnwind(Rotated(keys, NewPrimary(i), i.graceExpiresAt), inside);
      RollbackUndoesRotation(keys, NewPrimary(i), i.graceExpiresAt);
      NestedRotationsUnwind(keys, next);
  }

  // ----- Runs in any order -----

  /** The stored cells, and what has happened: endpoints configured, rotations made, key ids ever used. */
  datatype World = World(
    endpoints: set<string>,
    keys: seq<Key>,
    configured: set<(string, string)>,
    rotations: set<Rotation>,
    used: set<(string, string)>)

  const EMPTY_WORLD := World({}, [], {}, {}, {})

  datatype Step =
    | Configure(tenantId: string, endpointId: string, keyId: Option<string>, createdAt: int, secret: string)
    | RotateKey(input: Input)
    | RollBack(rotation: Rotation)

  function PairOf(step: Step): (string, string)
  {
    match step
    case Configure(t, e, _, _, _) => (t, e)
    case RotateKey(i) => (i.tenantId, i.endpointId)
    case RollBack(r) => (r.tenantId, r.endpointId)
  }

  /** Steps are of the given endpoints, and a rollback gets the result of a rotation that was made. */
  ghost predicate Authentic(pairs: set<(string, string)>, w: World, step: Step)
  {
    PairOf(step) in pairs && (step.RollBack? ==> step.rotation in w.rotations)
  }

  /** Key ids are fresh, or refused as duplicates. */
  ghost predicate FreshKey(w: World, step: Step)
  {
    match step
    case Configure(t, e, keyId, _, _) =>
      (t, KeyIdFor(e, keyId)) !in w.used || HasKeyId(w.keys, t, KeyIdFor(e, keyId))
    case RotateKey(i) => (i.tenantId, i.newKeyId) !in w.used || HasKeyId(w.keys, i.tenantId, i.newKeyId)
    case RollBack(_) => true
  }

  ghost predicate Enabled(pairs: set<(string, string)>, w: World, step: Step)
  {
    Authentic(pairs, w, step) && FreshKey(w, step)
  }

  function Apply(w: World, step: Step): World
  {
    match step
    case Configure(t, e, keyId, createdAt, secret) =>
      var id := KeyIdFor(e, keyId);
      var ensured := Ensured(w.keys, t, e, id, createdAt, secret);
      if ensured.Err? then w
      else w.(endpoints := w.endpoints + {ScopedKey(t, e)}, keys := ensured.value,
              configured := w.configured + {(t, e)},
              used := if ensured.value == w.keys then w.used else w.used + {(t, id)})
    case RotateKey(i) =>
      if ScopedKey(i.tenantId, i.endpointId) !in w.endpoints || HasKeyId(w.keys, i.tenantId, i.newKeyId) then w
      else
        var previous := PreviousPrimary(w.keys, i.tenantId, i.endpointId, i.graceExpiresAt);
        w.(keys := Rotated(w.keys, NewPrimary(i), i.graceExpiresAt),
           rotations := w.rotations + {Rotation(i.tenantId, i.endpointId, i.newKeyId, previous)},
           used := w.used + {(i.tenantId, i.newKeyId)})
    case RollBack(r) =>
      w.(keys := RolledBack(w.keys, r.tenantId, r.endpointId, r.newKeyId, r.previousPrimary))
  }

  function Run(w: World, steps: seq<Step>): World
    decreases |steps|
  {
    if steps == [] then w else Run(Apply(w, steps[0]), steps[1..])
  }

  ghost predicate Possible(pairs: set<(string, string)>, w: World, steps: seq<Step>)
    decreases |steps|
  {
    steps != [] ==> Enabled(pairs, w, steps[0]) && Possible(pairs, Apply(w, steps[0]), steps[1..])
  }

  ghost predicate RestsAt(stack: seq<Key>, r: Rotation, m: nat)
    requires m < |stack|
  {
    stack[m].id == r.newKeyId ==> m > 0 && r.previousPrimary.Some? && stack[m - 1].id == r.previousPrimary.value.id
  }

  /** While the key a rotation made is on its endpoint's stack, the key it demoted lies right beneath it. */
  ghost predicate RestsOnPrevious(stack: seq<Key>, r: Rotation)
  {
    forall m :: 0 <= m < |stack| ==> RestsAt(stack, r, m)
  }

  /** Resting on the previous key is a matter of ids only. */
  lemma IdsCarryRests(stack: seq<Key>, after: seq<Key>, r: Rotation)
    requires RestsOnPrevious(stack, r)
    requires forall m :: 0 <= m < |after| ==>
               if m < |stack| then after[m].id == stack[m].id else after[m].id != r.newKeyId
    ensures RestsOnPrevious(after, r)
  {
    forall m | 0 <= m < |after| ensures RestsAt(after, r, m) {
      if m < |stack| {
        assert RestsAt(stack, r, m);
        assert m > 0 ==> after[m - 1].id == stack[m - 1].id;
      }
    }
  }

  lemma DemotedIds(stack: seq<Key>, i: Input)
    ensures var after := Map(Demote(i.tenantId, i.endpointId, i.graceExpiresAt), stack) + [NewPrimary(i)];
            |after| == |stack| + 1 && forall m :: 0 <= m < |after| ==>
              after[m].id == if m < |stack| then stack[m].id else i.newKeyId
  {
  }

  /** Distinct endpoints are stored under distinct map keys. */
  ghost predicate NoCollision(pairs: set<(string, string)>)
  {
    forall p, q :: p in pairs && q in pairs && p.0 + ":" + p.1 == q.0 + ":" + q.1 ==> p == q
  }

  ghost predicate KeysHold(pairs: set<(string, string)>, w: World)
  {
    && InOrder(w.keys)
    && w.configured <= pairs
    && w.endpoints == (set p | p in w.configured :: ScopedKey(p.0, p.1))
    && (forall t, e :: (t, e) in w.configured <==> Stack(w.keys, t, e) != [])
    && (forall i :: 0 <= i < |w.keys| ==> (w.keys[i].tenantId, w.keys[i].id) in w.used)
    && (forall r :: r in w.rotations ==>
          && (r.tenantId, r.newKeyId) in w.used
          && (r.previousPrimary.Some? ==> Of(r.tenantId, r.endpointId)(r.previousPrimary.value))
          && RestsOnPrevious(Stack(w.keys, r.tenantId, r.endpointId), r))
  }

  lemma KeyInStack(keys: seq<Key>, t: string, e: string)
    ensures forall m :: 0 <= m < |Stack(keys, t, e)| ==> Of(t, e)(Stack(keys, t, e)[m]) && Stack(keys, t, e)[m] in keys
  {
    FilterMembers(Of(t, e), keys);
    forall m | 0 <= m < |Stack(keys, t, e)|
      ensures Of(t, e)(Stack(keys, t, e)[m]) && Stack(keys, t, e)[m] in keys
    {
      assert Stack(keys, t, e)[m] in Stack(keys, t, e);
    }
  }

  lemma {:induction false} StackIdsUnique(keys: seq<Key>, t: string, e: string)
    requires UniqueKeyIds(keys)
    ensures UniqueKeyIds(Stack(keys, t, e))
  {
    if keys != [] {
      StackIdsUnique(keys[1..], t, e);
      KeyInStack(keys[1..], t, e);
      var s := Stack(keys[1..], t, e);
      forall j | 0 <= j < |s| ensures !(s[j].tenantId == keys[0].tenantId && s[j].id == keys[0].id) {
        var k :| 0 <= k < |keys[1..]| && keys[1..][k] == s[j];
        assert keys[k + 1] == s[j];
      }
    }
  }

  lemma ConfigureKeepsKeys(pairs: set<(string, string)>, w: World, step: Step)
    requires KeysHold(pairs, w) && Enabled(pairs, w, step) && step.Configure?
    ensures KeysHold(pairs, Apply(w, step))
  {
    var v := Apply(w, step);
    var (t, e) := (step.tenantId, step.endpointId);
    var id := KeyIdFor(e, step.keyId);
    var ensured := Ensured(w.keys, t, e, id, step.createdAt, step.secret);
    PrimaryMeansStack(w.keys, t, e);
    if ensured.Ok? && ensured.value != w.keys {
      var k := Key(t, e, id, Primary, step.createdAt, None, step.secret);
      forall x, y
        ensures OnePrimaryOnTop(Stack(v.keys, x, y)) && ((x, y) in v.configured <==> Stack(v.keys, x, y) != [])
      {
        AppendedStack(w.keys, k, x, y);
        assert OnePrimaryOnTop(Stack(w.keys, x, y));
        assert (x, y) in w.configured <==> Stack(w.keys, x, y) != [];
      }
      forall r | r in v.rotations ensures RestsOnPrevious(Stack(v.keys, r.tenantId, r.endpointId), r) {
        AppendedStack(w.keys, k, r.tenantId, r.endpointId);
        IdsCarryRests(Stack(w.keys, r.tenantId, r.endpointId), Stack(v.keys, r.tenantId, r.endpointId), r);
      }
    }
  }

  lemma PrimaryMeansStack(keys: seq<Key>, t: string, e: string)
    requires InOrder(keys)
    ensures (exists i :: 0 <= i < |keys| && PrimaryOf(keys[i], t, e)) <==> Stack(keys, t, e) != []
  {
    var s := Stack(keys, t, e);
    FilterMembers(Of(t, e), keys);
    assert OnePrimaryOnTop(s);
    if i :| 0 <= i < |keys| && PrimaryOf(keys[i], t, e) {
      assert keys[i] in s;
    }
    if s != [] {
      KeyInStack(keys, t, e);
      var i :| 0 <= i < |keys| && keys[i] == s[|s| - 1];
      assert PrimaryOf(keys[i], t, e);
    }
  }

  lemma RotateKeepsKeys(pairs: set<(string, string)>, w: World, step: Step)
    requires NoCollision(pairs)
    requires KeysHold(pairs, w) && Enabled(pairs, w, step) && step.RotateKey?
    ensures KeysHold(pairs, Apply(w, step))
  {
    hide OnePrimaryOnTop, RestsOnPrevious, Stack, Rotated, PreviousPrimary, InOrder;
    var v, i := Apply(w, step), step.input;
    var (t, e) := (i.tenantId, i.endpointId);
    if ScopedKey(t, e) in w.endpoints && !HasKeyId(w.keys, t, i.newKeyId) {
      assert (t, e) in w.configured;
      assert Stack(w.keys, t, e) != [];
      RotationKeepsOrder(w.keys, NewPrimary(i), i.graceExpiresAt);
      RotatedIds(w.keys, NewPrimary(i), i.graceExpiresAt);
      forall x, y ensures (x, y) in v.configured <==> Stack(v.keys, x, y) != [] {
        RotatedStack(w.keys, NewPrimary(i), i.graceExpiresAt, x, y);
        assert (x, y) in w.configured <==> Stack(w.keys, x, y) != [];
      }
      forall r | r in v.rotations
        ensures r.previousPrimary.Some? ==> Of(r.tenantId, r.endpointId)(r.previousPrimary.value)
        ensures RestsOnPrevious(Stack(v.keys, r.tenantId, r.endpointId), r)
      {
        if r in w.rotations {
          OldRotationRests(w, i, r);
        } else {
          NewRotationRests(w, i);
        }
      }
    }
  }

  lemma RotatedIds(keys: seq<Key>, newPrimary: Key, graceExpiresAt: int)
    ensures var after := Rotated(keys, newPrimary, graceExpiresAt);
            && |after| == |keys| + 1 && after[|keys|] == newPrimary
            && forall m :: 0 <= m < |keys| ==> after[m].tenantId == keys[m].tenantId && after[m].id == keys[m].id
  {
  }

  lemma OldRotationRests(w: World, i: Input, r: Rotation)
    requires r.tenantId == i.tenantId ==> r.newKeyId != i.newKeyId
    requires RestsOnPrevious(Stack(w.keys, r.tenantId, r.endpointId), r)
    ensures RestsOnPrevious(Stack(Rotated(w.keys, NewPrimary(i), i.graceExpiresAt), r.tenantId, r.endpointId), r)
  {
    hide Stack, Rotated, RestsOnPrevious, Demote;
    RotatedStack(w.keys, NewPrimary(i), i.graceExpiresAt, r.tenantId, r.endpointId);
    DemotedIds(Stack(w.keys, r.tenantId, r.endpointId), i);
    IdsCarryRests(Stack(w.keys, r.tenantId, r.endpointId),
                  Stack(Rotated(w.keys, NewPrimary(i), i.graceExpiresAt), r.tenantId, r.endpointId), r);
  }

  lemma NewRotationRests(w: World, i: Input)
    requires InOrder(w.keys) && Stack(w.keys, i.tenantId, i.endpointId) != []
    requires forall k :: 0 <= k < |w.keys| ==> (w.keys[k].tenantId, w.keys[k].id) in w.used
    requires (i.tenantId, i.newKeyId) !in w.used
    ensures var previous := PreviousPrimary(w.keys, i.tenantId, i.endpointId, i.graceExpiresAt);
            var r := Rotation(i.tenantId, i.endpointId, i.newKeyId, previous);
            && previous.Some? && Of(i.tenantId, i.endpointId)(previous.value)
            && RestsOnPrevious(Stack(Rotated(w.keys, NewPrimary(i), i.graceExpiresAt), i.tenantId, i.endpointId), r)
  {
    var stack := Stack(w.keys, i.tenantId, i.endpointId);
    assert OnePrimaryOnTop(stack);
    hide Stack, Rotated, PreviousPrimary, InOrder, OnePrimaryOnTop, RestsOnPrevious;
    PreviousIsTop(w.keys, i.tenantId, i.endpointId, i.graceExpiresAt);
    RotatedStack(w.keys, NewPrimary(i), i.graceExpiresAt, i.tenantId, i.endpointId);
    KeyInStack(w.keys, i.tenantId, i.endpointId);
    forall m | 0 <= m < |stack| ensures stack[m].id != i.newKeyId {
      var k :| 0 <= k < |w.keys| && w.keys[k] == stack[m];
    }
    DemotedIds(stack, i);
    NewTopRests(stack, Stack(Rotated(w.keys, NewPrimary(i), i.graceExpiresAt), i.tenantId, i.endpointId),
                Rotation(i.tenantId, i.endpointId, i.newKeyId,
                         PreviousPrimary(w.keys, i.tenantId, i.endpointId, i.graceExpiresAt)));
  }

  lemma NewTopRests(stack: seq<Key>, after: seq<Key>, r: Rotation)
    requires stack != [] && r.previousPrimary.Some? && r.previousPrimary.value.id == stack[|stack| - 1].id
    requires forall m :: 0 <= m < |stack| ==> stack[m].id != r.newKeyId
    requires |after| == |stack| + 1
    requires forall m :: 0 <= m < |after| ==> after[m].id == if m < |stack| then stack[m].id else r.newKeyId
    ensures RestsOnPrevious(after, r)
  {
    forall m | 0 <= m < |after| ensures RestsAt(after, r, m) {
      assert m > 0 ==> after[m - 1].id == stack[m - 1].id;
    }
  }

  lemma RollBackKeepsKeys(pairs: set<(string, string)>, w: World, step: Step)
    requires KeysHold(pairs, w) && Enabled(pairs, w, step) && step.RollBack?
    ensures KeysHold(pairs, Apply(w, step))
  {
    var v, r := Apply(w, step), step.rotation;
    RolledBackIds(w.keys, r);
    forall x, y
      ensures OnePrimaryOnTop(Stack(v.keys, x, y)) && ((x, y) in v.configured <==> Stack(v.keys, x, y) != [])
    {
      assert (x, y) in w.configured <==> Stack(w.keys, x, y) != [];
      RolledBackStack(w.keys, r, x, y);
      if r.tenantId == x && r.endpointId == y { PoppedStack(w, r); }
    }
    forall q | q in v.rotations ensures RestsOnPrevious(Stack(v.keys, q.tenantId, q.endpointId), q) {
      RolledBackStack(w.keys, r, q.tenantId, q.endpointId);
      if q.tenantId == r.tenantId && q.endpointId == r.endpointId {
        PoppedStack(w, r);
        IdsCarryRests(Stack(w.keys, q.tenantId, q.endpointId), Stack(v.keys, q.tenantId, q.endpointId), q);
      }
    }
  }

  /** After the rollback the stack is unchanged, or one shorter with the key beneath promoted again. */
  lemma PoppedStack(w: World, r: Rotation)
    requires InOrder(w.keys)
    requires r.previousPrimary.Some? ==> Of(r.tenantId, r.endpointId)(r.previousPrimary.value)
    requires RestsOnPrevious(Stack(w.keys, r.tenantId, r.endpointId), r)
    ensures var stack := Stack(w.keys, r.tenantId, r.endpointId);
            var after := RolledBack(stack, r.tenantId, r.endpointId, r.newKeyId, r.previousPrimary);
            && OnePrimaryOnTop(after)
            && (after == [] <==> stack == [])
            && |after| <= |stack|
            && forall m :: 0 <= m < |after| ==> after[m].id == stack[m].id
  {
    hide Stack, RolledBack;
    var stack := Stack(w.keys, r.tenantId, r.endpointId);
    assert OnePrimaryOnTop(stack);
    KeyInStack(w.keys, r.tenantId, r.endpointId);
    StackIdsUnique(w.keys, r.tenantId, r.endpointId);
    RollbackPops(stack, r);
    var n := |stack| - 1;
    if n >= 0 && stack[n].id == r.newKeyId {
      assert RestsAt(stack, r, n);
      RestoredStack(stack[..n], r.tenantId, r.endpointId, r.previousPrimary.value);
    }
  }

  /** Restoring the top of a stack of secondary keys makes it the one primary and keeps every id. */
  lemma RestoredStack(stack: seq<Key>, tenantId: string, endpointId: string, previous: Key)
    requires UniqueKeyIds(stack) && stack != []
    requires forall m :: 0 <= m < |stack| ==> Of(tenantId, endpointId)(stack[m]) && stack[m].role == Secondary
    requires stack[|stack| - 1].id == previous.id
    ensures var after := Map(Restore(tenantId, endpointId, previous), stack);
            && OnePrimaryOnTop(after)
            && forall m :: 0 <= m < |stack| ==> after[m].id == stack[m].id
  {
    var after, top := Map(Restore(tenantId, endpointId, previous), stack), |stack| - 1;
    forall m | 0 <= m < |stack|
      ensures after[m].id == stack[m].id
      ensures if m == top then after[m].role == Primary && after[m].expiresAt == None else after[m].role == Secondary
    {
      if m < top {
        assert stack[m].tenantId == stack[top].tenantId && stack[m].id != stack[top].id;
        assert after[m] == stack[m];
      }
    }
  }

  lemma RolledBackIds(keys: seq<Key>, r: Rotation)
    requires UniqueKeyIds(keys)
    requires r.previousPrimary.Some? ==> Of(r.tenantId, r.endpointId)(r.previousPrimary.value)
    ensures var after := RolledBack(keys, r.tenantId, r.endpointId, r.newKeyId, r.previousPrimary);
            && UniqueKeyIds(after)
            && forall i :: 0 <= i < |after| ==> HasKeyId(keys, after[i].tenantId, after[i].id)
  {
    var keep := NotNewPrimary(r.tenantId, r.endpointId, r.newKeyId);
    var without := Filter(keep, keys);
    FilterKeepsKeyIds(keep, keys);
    FilterMembers(keep, keys);
    var after := RolledBack(keys, r.tenantId, r.endpointId, r.newKeyId, r.previousPrimary);
    assert forall i :: 0 <= i < |after| ==> after[i].tenantId == without[i].tenantId && after[i].id == without[i].id;
    forall i | 0 <= i < |after|
      ensures HasKeyId(keys, after[i].tenantId, after[i].id)
    {
      assert without[i] in without;
      var j :| 0 <= j < |keys| && keys[j] == without[i];
    }
  }

  lemma {:induction false} FilterKeepsKeyIds(keep: Key -> bool, keys: seq<Key>)
    requires UniqueKeyIds(keys)
    ensures UniqueKeyIds(Filter(keep, keys))
  {
    if keys != [] {
      var s := Filter(keep, keys[1..]);
      FilterKeepsKeyIds(keep, keys[1..]);
      FilterMembers(keep, keys[1..]);
      forall j | 0 <= j < |s| ensures !(s[j].tenantId == keys[0].tenantId && s[j].id == keys[0].id) {
        assert s[j] in s;
        var k :| 0 <= k < |keys[1..]| && keys[1..][k] == s[j];
        assert keys[k + 1] == s[j];
      }
    }
  }

  lemma {:induction false} RunKeepsKeys(pairs: set<(string, string)>, w: World, steps: seq<Step>)
    requires NoCollision(pairs) && KeysHold(pairs, w) && Possible(pairs, w, steps)
    ensures KeysHold(pairs, Run(w, steps))
    decreases |steps|
  {
    if steps != [] {
      match steps[0] {
        case Configure(_, _, _, _, _) => ConfigureKeepsKeys(pairs, w, steps[0]);
        case RotateKey(_) => RotateKeepsKeys(pairs, w, steps[0]);
        case RollBack(_) => RollBackKeepsKeys(pairs, w, steps[0]);
      }
      RunKeepsKeys(pairs, Apply(w, steps[0]), steps[1..]);
    }
  }

  ghost predicate ExactlyOnePrimary(keys: seq<Key>, t: string, e: string)
  {
    exists i :: 0 <= i < |keys| && PrimaryOf(keys[i], t, e)
             && forall j :: 0 <= j < |keys| && PrimaryOf(keys[j], t, e) ==> j == i
  }

  lemma StackGivesOnePrimary(keys: seq<Key>, t: string, e: string)
    requires UniqueKeyIds(keys) && OnePrimaryOnTop(Stack(keys, t, e)) && Stack(keys, t, e) != []
    ensures ExactlyOnePrimary(keys, t, e)
  {
    var stack := Stack(keys, t, e);
    KeyInStack(keys, t, e);
    FilterMembers(Of(t, e), keys);
    var i :| 0 <= i < |keys| && keys[i] == stack[|stack| - 1];
    forall j | 0 <= j < |keys| && PrimaryOf(keys[j], t, e) ensures j == i {
      assert keys[j] in stack;
    }
    assert PrimaryOf(keys[i], t, e);
  }

  /**
   * Whatever rotations and rollbacks are run, in any order and as often as wanted, every configured endpoint has
   * exactly one primary and key ids stay unique per tenant, if the endpoints have distinct map keys.
   */
  lemma EveryEndpointHasOnePrimary(pairs: set<(string, string)>, steps: seq<Step>, t: string, e: string)
    requires NoCollision(pairs) && Possible(pairs, EMPTY_WORLD, steps)
    requires (t, e) in Run(EMPTY_WORLD, steps).configured
    ensures ExactlyOnePrimary(Run(EMPTY_WORLD, steps).keys, t, e)
    ensures UniqueKeyIds(Run(EMPTY_WORLD, steps).keys)
  {
    hide ExactlyOnePrimary, OnePrimaryOnTop, RestsOnPrevious, Run, Possible;
    EmptyHolds(pairs);
    RunKeepsKeys(pairs, EMPTY_WORLD, steps);
    StackGivesOnePrimary(Run(EMPTY_WORLD, steps).keys, t, e);
  }

  lemma EmptyHolds(pairs: set<(string, string)>)
    ensures KeysHold(pairs, EMPTY_WORLD)
  {
  }

  lemma SameText(p: (string, string), q: (string, string))
    requires p.0 + ":" + p.1 == q.0 + ":" + q.1
    ensures ScopedKey(p.0, p.1) == ScopedKey(q.0, q.1)
  {
  }

  /**
   * The map keys have to be distinct: two endpoints stored under one key allow a run that leaves one of them
   * configured and without any primary.
   */
  lemma CollisionLosesPrimary(p: (string, string), q: (string, string)) returns (steps: seq<Step>)
    requires p != q && p.0 + ":" + p.1 == q.0 + ":" + q.1
    ensures Possible({p, q}, EMPTY_WORLD, steps)
    ensures q in Run(EMPTY_WORLD, steps).configured
    ensures var keys := Run(EMPTY_WORLD, steps).keys;
            forall i :: 0 <= i < |keys| ==> !PrimaryOf(keys[i], q.0, q.1)
  {
    hide Possible, Run, Apply, FreshKey;
    var input := Input(q.0, q.1, "2", "", 0, 0);
    var r := Rotation(q.0, q.1, "2", None);
    var first, second := Configure(p.0, p.1, Some("1"), 0, ""), RotateKey(input);
    var third, fourth := Configure(q.0, q.1, Some("3"), 0, ""), RollBack(r);
    hide ScopedKey;
    assert p == (p.0, p.1) && q == (q.0, q.1);
    FirstConfigured(p);
    assert ScopedKey(q.0, q.1) == ScopedKey(p.0, p.1) by { SameText(p, q); }
    StrangerGetsKey(p, q, Apply(EMPTY_WORLD, first));
    CollidingRollback(p, q, Apply(Apply(EMPTY_WORLD, first), second));
    steps := [first, second, third, fourth];
    FourSteps({p, q}, EMPTY_WORLD, first, second, third, fourth);
  }

  lemma FirstConfigured(p: (string, string))
    ensures var w1 := Apply(EMPTY_WORLD, Configure(p.0, p.1, Some("1"), 0, ""));
            && FreshKey(EMPTY_WORLD, Configure(p.0, p.1, Some("1"), 0, ""))
            && w1.keys == [Top(p, "1")] && w1.endpoints == {ScopedKey(p.0, p.1)} && w1.used == {(p.0, "1")}
  {
    hide ScopedKey;
  }

  /** The endpoint `q` is not configured, but found under another's key, and gets a key by a rotation. */
  lemma StrangerGetsKey(p: (string, string), q: (string, string), w1: World)
    requires p != q && w1.keys == [Top(p, "1")] && w1.used == {(p.0, "1")} && ScopedKey(q.0, q.1) in w1.endpoints
    ensures var second := RotateKey(Input(q.0, q.1, "2", "", 0, 0));
            var w2 := Apply(w1, second);
            && FreshKey(w1, second)
            && w2.keys == [Top(p, "1"), Top(q, "2")] && Rotation(q.0, q.1, "2", None) in w2.rotations
            && w2.used == {(p.0, "1"), (q.0, "2")}
  {
    hide Rotated, PreviousPrimary, ScopedKey;
    StrangerRotates(Top(p, "1"), Top(q, "2"));
    assert !HasKeyId(w1.keys, q.0, "2") && (q.0, "2") !in w1.used;
  }

  /** Configuring `q` then adds no key, and rolling the rotation back takes its only one. */
  lemma CollidingRollback(p: (string, string), q: (string, string), w2: World)
    requires p != q && w2.keys == [Top(p, "1"), Top(q, "2")] && Rotation(q.0, q.1, "2", None) in w2.rotations
    requires w2.used == {(p.0, "1"), (q.0, "2")}
    ensures var third, fourth := Configure(q.0, q.1, Some("3"), 0, ""), RollBack(Rotation(q.0, q.1, "2", None));
            var w3 := Apply(w2, third);
            && FreshKey(w2, third) && FreshKey(w3, fourth) && Rotation(q.0, q.1, "2", None) in w3.rotations
            && q in Apply(w3, fourth).configured && Apply(w3, fourth).keys == [Top(p, "1")]
  {
    hide RolledBack, ScopedKey;
    var w3 := Apply(w2, Configure(q.0, q.1, Some("3"), 0, ""));
    assert w2.keys[1] == Top(q, "2") && PrimaryOf(Top(q, "2"), q.0, q.1);
    assert w3.keys == [Top(p, "1"), Top(q, "2")];
    StrangerRollsBack(Top(p, "1"), Top(q, "2"));
  }

  ghost predicate KeepsOnePrimary(pairs: set<(string, string)>)
  {
    forall steps, t, e :: Possible(pairs, EMPTY_WORLD, steps) && (t, e) in Run(EMPTY_WORLD, steps).configured ==>
      ExactlyOnePrimary(Run(EMPTY_WORLD, steps).keys, t, e)
  }

  /** The exact condition: every run keeps one primary per endpoint if and only if no two endpoints share a map key. */
  lemma OnePrimaryExactlyWithoutCollision(pairs: set<(string, string)>)
    ensures KeepsOnePrimary(pairs) <==> NoCollision(pairs)
  {
    hide Run, Possible;
    if NoCollision(pairs) {
      forall steps, t, e | Possible(pairs, EMPTY_WORLD, steps) && (t, e) in Run(EMPTY_WORLD, steps).configured
        ensures ExactlyOnePrimary(Run(EMPTY_WORLD, steps).keys, t, e)
      {
        EveryEndpointHasOnePrimary(pairs, steps, t, e);
      }
    } else {
      var p, q :| p in pairs && q in pairs && p.0 + ":" + p.1 == q.0 + ":" + q.1 && p != q;
      var steps := CollisionLosesPrimary(p, q);
      MorePairsPossible({p, q}, pairs, EMPTY_WORLD, steps);
      assert q == (q.0, q.1);
      assert !ExactlyOnePrimary(Run(EMPTY_WORLD, steps).keys, q.0, q.1);
    }
  }

  lemma {:induction false} MorePairsPossible(
      some: set<(string, string)>, pairs: set<(string, string)>, w: World, steps: seq<Step>)
    requires some <= pairs && Possible(some, w, steps)
    ensures Possible(pairs, w, steps)
    decreases |steps|
  {
    if steps != [] { MorePairsPossible(some, pairs, Apply(w, steps[0]), steps[1..]); }
  }

  /** Rotating a key in next to a stranger's demotes nothing. */
  lemma StrangerRotates(k1: Key, k2: Key)
    requires !Of(k2.tenantId, k2.endpointId)(k1)
    ensures PreviousPrimary([k1], k2.tenantId, k2.endpointId, 0) == None
    ensures Rotated([k1], k2, 0) == [k1, k2]
  {
    assert [k1][..0] == [];
  }

  /** Rolling it back without a previous primary leaves the stranger's key alone. */
  lemma StrangerRollsBack(k1: Key, k2: Key)
    requires k2.role == Primary && !Of(k2.tenantId, k2.endpointId)(k1)
    ensures RolledBack([k1, k2], k2.tenantId, k2.endpointId, k2.id, None) == [k1]
  {
    var keep := NotNewPrimary(k2.tenantId, k2.endpointId, k2.id);
    FilterAll(keep, [k1]);
    FilterNone(keep, [k2]);
    FilterConcat(keep, [k1], [k2]);
    assert [k1] + [k2] == [k1, k2];
  }

  lemma FourSteps(pairs: set<(string, string)>, w: World, a: Step, b: Step, c: Step, d: Step)
    requires Enabled(pairs, w, a) && Enabled(pairs, Apply(w, a), b) && Enabled(pairs, Apply(Apply(w, a), b), c)
    requires Enabled(pairs, Apply(Apply(Apply(w, a), b), c), d)
    ensures Possible(pairs, w, [a, b, c, d])
    ensures Run(w, [a, b, c, d]) == Apply(Apply(Apply(Apply(w, a), b), c), d)
  {
    hide Apply, Enabled;
    var w1 := Apply(w, a);
    var w2 := Apply(w1, b);
    var w3 := Apply(w2, c);
    assert [a, b, c, d][1..] == [b, c, d] && [b, c, d][1..] == [c, d] && [c, d][1..] == [d] && [d][1..] == [];
    assert Possible(pairs, Apply(w3, d), []) && Run(Apply(w3, d), []) == Apply(w3, d);
    assert Possible(pairs, w3, [d]) && Run(w3, [d]) == Apply(w3, d);
    assert Possible(pairs, w2, [c, d]) && Run(w2, [c, d]) == Apply(w3, d);
    assert Possible(pairs, w1, [b, c, d]) && Run(w1, [b, c, d]) == Apply(w3, d);
  }

  // ----- Why key ids have to be fresh -----

  /** Every rollback is of a rotation that was made; key ids may come again. */
  ghost predicate AuthenticRun(pairs: set<(string, string)>, w: World, steps: seq<Step>)
    decreases |steps|
  {
    steps != [] ==> Authentic(pairs, w, steps[0]) && AuthenticRun(pairs, Apply(w, steps[0]), steps[1..])
  }

  lemma {:induction false} OneStepMore(pairs: set<(string, string)>, w: World, steps: seq<Step>, step: Step)
    ensures Run(w, steps + [step]) == Apply(Run(w, steps), step)
    ensures AuthenticRun(pairs, w, steps + [step])
       <==> AuthenticRun(pairs, w, steps) && Authentic(pairs, Run(w, steps), step)
    decreases |steps|
  {
    hide Apply, Authentic;
    if steps == [] {
      assert steps + [step] == [step];
    } else {
      assert (steps + [step])[1..] == steps[1..] + [step];
      OneStepMore(pairs, Apply(w, steps[0]), steps[1..], step);
    }
  }

  function InputOf(p: (string, string), keyId: string): Input
  {
    Input(p.0, p.1, keyId, "", 0, 0)
  }

  function RotationOf(p: (string, string), keyId: string, demotedId: string): Rotation
  {
    Rotation(p.0, p.1, keyId, Some(Key(p.0, p.1, demotedId, Secondary, 0, Some(0), "")))
  }

  function Top(p: (string, string), keyId: string): Key
  {
    Key(p.0, p.1, keyId, Primary, 0, None, "")
  }

  function Demoted(p: (string, string), keyId: string): Key
  {
    Key(p.0, p.1, keyId, Secondary, 0, Some(0), "")
  }

  lemma RotateOn(p: (string, string), keys: seq<Key>, topId: string, keyId: string)
    requires forall i :: 0 <= i < |keys| ==> keys[i].role == Secondary
    ensures Rotated(keys + [Top(p, topId)], NewPrimary(InputOf(p, keyId)), 0)
         == keys + [Demoted(p, topId)] + [Top(p, keyId)]
    ensures PreviousPrimary(keys + [Top(p, topId)], p.0, p.1, 0) == Some(Demoted(p, topId))
  {
    var demote := Demote(p.0, p.1, 0);
    MapConcat(demote, keys, [Top(p, topId)]);
    assert Map(demote, keys) == keys;
    assert Map(demote, [Top(p, topId)]) == [Demoted(p, topId)];
  }

  lemma RollBackOn(p: (string, string), keys: seq<Key>, keyId: string, previousId: string)
    requires forall i :: 0 <= i < |keys| ==> keys[i].role == Secondary
    ensures RolledBack(keys + [Top(p, keyId)], p.0, p.1, keyId, Some(Demoted(p, previousId)))
         == Map(Restore(p.0, p.1, Demoted(p, previousId)), keys)
  {
    hide Restore, Demoted, Filter, Map;
    var keep, all := NotNewPrimary(p.0, p.1, keyId), keys + [Top(p, keyId)];
    FilterConcat(keep, keys, [Top(p, keyId)]);
    FilterAll(keep, keys);
    FilterNone(keep, [Top(p, keyId)]);
    assert keys + [] == keys;
    assert all[|keys|] == Top(p, keyId);
    assert IsNewPrimary(all[|keys|], p.0, p.1, keyId);
  }

  /** Rotate to 2, rotate to 3, undo both, rotate to 3 again. */
  function Reused(p: (string, string)): seq<Step>
  {
    [Configure(p.0, p.1, Some("1"), 0, "")] + [RotateKey(InputOf(p, "2"))] + [RotateKey(InputOf(p, "3"))]
    + [RollBack(RotationOf(p, "3", "2"))] + [RollBack(RotationOf(p, "2", "1"))] + [RotateKey(InputOf(p, "3"))]
  }

  lemma ReusedEndsWith(p: (string, string))
    ensures var w := Run(EMPTY_WORLD, Reused(p));
            && w.keys == [Demoted(p, "1"), Top(p, "3")] && p in w.configured
            && RotationOf(p, "3", "2") in w.rotations
    ensures AuthenticRun({p}, EMPTY_WORLD, Reused(p))
  {
    hide Rotated, RolledBack, PreviousPrimary, Run, AuthenticRun, Map;
    var w := EMPTY_WORLD;
    NothingRun({p});
    var s1 := [Configure(p.0, p.1, Some("1"), 0, "")];
    OneStepMore({p}, w, [], s1[0]);
    assert [] + s1 == s1;
    var w1 := Run(w, s1);
    assert p == (p.0, p.1);
    assert w1.keys == [] + [Top(p, "1")];
    var s2 := s1 + [RotateKey(InputOf(p, "2"))];
    OneStepMore({p}, w, s1, RotateKey(InputOf(p, "2")));
    RotateOn(p, [], "1", "2");
    var w2 := Run(w, s2);
    assert w2.keys == [Demoted(p, "1")] + [Top(p, "2")];
    var s3 := s2 + [RotateKey(InputOf(p, "3"))];
    OneStepMore({p}, w, s2, RotateKey(InputOf(p, "3")));
    RotateOn(p, [Demoted(p, "1")], "2", "3");
    var w3 := Run(w, s3);
    assert w3.keys == [Demoted(p, "1"), Demoted(p, "2")] + [Top(p, "3")];
    var s4 := s3 + [RollBack(RotationOf(p, "3", "2"))];
    OneStepMore({p}, w, s3, RollBack(RotationOf(p, "3", "2")));
    RollBackOn(p, [Demoted(p, "1"), Demoted(p, "2")], "3", "2");
    var w4 := Run(w, s4);
    assert w4.keys == [Demoted(p, "1")] + [Top(p, "2")];
    var s5 := s4 + [RollBack(RotationOf(p, "2", "1"))];
    OneStepMore({p}, w, s4, RollBack(RotationOf(p, "2", "1")));
    RollBackOn(p, [Demoted(p, "1")], "2", "1");
    var w5 := Run(w, s5);
    assert w5.keys == [] + [Top(p, "1")];
    OneStepMore({p}, w, s5, RotateKey(InputOf(p, "3")));
    RotateOn(p, [], "1", "3");
  }

  lemma NothingRun(pairs: set<(string, string)>)
    ensures Run(EMPTY_WORLD, []) == EMPTY_WORLD && AuthenticRun(pairs, EMPTY_WORLD, [])
  {
  }

  /**
   * Replaying the first rollback of key 3 then leaves the endpoint configured and without any primary, though no
   * two endpoints share a map key.
   */
  lemma ReusedKeyIdLosesPrimary(p: (string, string))
    ensures var steps := Reused(p) + [RollBack(RotationOf(p, "3", "2"))];
            var w := Run(EMPTY_WORLD, steps);
            && NoCollision({p}) && AuthenticRun({p}, EMPTY_WORLD, steps) && p in w.configured
            && forall i :: 0 <= i < |w.keys| ==> !PrimaryOf(w.keys[i], p.0, p.1)
  {
    hide RolledBack, Run, AuthenticRun;
    ReusedEndsWith(p);
    OneStepMore({p}, EMPTY_WORLD, Reused(p), RollBack(RotationOf(p, "3", "2")));
    assert [Demoted(p, "1")] + [Top(p, "3")] == [Demoted(p, "1"), Top(p, "3")];
    RollBackOn(p, [Demoted(p, "1")], "3", "2");
  }
}
