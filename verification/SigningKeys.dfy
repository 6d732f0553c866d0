/**
 * Webhook signing keys (minimal-persistence.ts): configuring an endpoint, rotating its key with a grace period,
 * and rolling a rotation back. All tenants share one key list.
 */
module SigningKeys {
  import opened Basics
  import opened Sorting
  import Text

  datatype Role = Primary | Secondary

  datatype Key = Key(
    tenantId: string,
    endpointId: string,
    id: string,
    role: Role,
    createdAt: int,
    expiresAt: Option<int>,
    secret: string)

  datatype Endpoint = Endpoint(tenantId: string, id: string, url: string, createdAt: int, updatedAt: int)

  datatype KeyError = MissingEndpoint(id: string) | DuplicateKey(id: string)

  /** `${tenantId}:${id}`: the map key under which an endpoint is stored. */
  function ScopedKey(tenantId: string, id: string): string
  {
    tenantId + ":" + id
  }

  function Of(tenantId: string, endpointId: string): Key -> bool
  {
    (k: Key) => k.tenantId == tenantId && k.endpointId == endpointId
  }

  predicate PrimaryOf(k: Key, tenantId: string, endpointId: string)
  {
    k.tenantId == tenantId && k.endpointId == endpointId && k.role == Primary
  }

  predicate HasKeyId(keys: seq<Key>, tenantId: string, id: string)
  {
    exists i :: 0 <= i < |keys| && keys[i].tenantId == tenantId && keys[i].id == id
  }

  // ----- Rotation and rollback on the key list -----

  function Demote(tenantId: string, endpointId: string, graceExpiresAt: int): Key -> Key
  {
    (k: Key) => if PrimaryOf(k, tenantId, endpointId)
                then k.(expiresAt := Some(graceExpiresAt), role := Secondary) else k
  }

  /** The primary the rotation found last, as demoted; `previous` in the source's loop. */
  function PreviousPrimary(keys: seq<Key>, tenantId: string, endpointId: string, graceExpiresAt: int): Option<Key>
  {
    if keys == [] then None
    else
      var k := keys[|keys| - 1];
      if PrimaryOf(k, tenantId, endpointId) then Some(Demote(tenantId, endpointId, graceExpiresAt)(k))
      else PreviousPrimary(keys[..|keys| - 1], tenantId, endpointId, graceExpiresAt)
  }

  function Rotated(keys: seq<Key>, newPrimary: Key, graceExpiresAt: int): seq<Key>
  {
    Map(Demote(newPrimary.tenantId, newPrimary.endpointId, graceExpiresAt), keys) + [newPrimary]
  }

  predicate IsNewPrimary(k: Key, tenantId: string, endpointId: string, newKeyId: string)
  {
    PrimaryOf(k, tenantId, endpointId) && k.id == newKeyId
  }

  function NotNewPrimary(tenantId: string, endpointId: string, newKeyId: string): Key -> bool
  {
    (k: Key) => !IsNewPrimary(k, tenantId, endpointId, newKeyId)
  }

  function Restore(tenantId: string, endpointId: string, previous: Key): Key -> Key
  {
    (k: Key) => if k.tenantId == tenantId && k.endpointId == endpointId && k.id == previous.id
                then previous.(expiresAt := None, role := Primary) else k
  }

  function RolledBack(keys: seq<Key>, tenantId: string, endpointId: string, newKeyId: string, previous: Option<Key>)
    : seq<Key>
  {
    var without := Filter(NotNewPrimary(tenantId, endpointId, newKeyId), keys);
    if (exists i :: 0 <= i < |keys| && IsNewPrimary(keys[i], tenantId, endpointId, newKeyId)) && previous.Some?
    then Map(Restore(tenantId, endpointId, previous.value), without)
    else without
  }

  lemma RotatedText(keys: seq<Key>, newPrimary: Key, graceExpiresAt: int)
    ensures Rotated(keys, newPrimary, graceExpiresAt)
         == Map(Demote(newPrimary.tenantId, newPrimary.endpointId, graceExpiresAt), keys) + [newPrimary]
  {
  }

  /** A rotation makes the endpoint's primaries secondary for the grace period and adds the new key at the end. */
  lemma RotatedKeys(keys: seq<Key>, newPrimary: Key, graceExpiresAt: int)
    ensures var r := Rotated(keys, newPrimary, graceExpiresAt);
            && |r| == |keys| + 1 && r[|keys|] == newPrimary
            && forall i :: 0 <= i < |keys| ==>
                 var k := keys[i];
                 r[i] == if k.tenantId == newPrimary.tenantId && k.endpointId == newPrimary.endpointId
                            && k.role == Primary
                         then k.(expiresAt := Some(graceExpiresAt), role := Secondary) else k
  {
  }

  lemma OneKeyFurther(keys: seq<Key>, i: nat, tenantId: string, endpointId: string, graceExpiresAt: int)
    requires i < |keys|
    ensures var demote := Demote(tenantId, endpointId, graceExpiresAt);
            && Map(demote, keys[..i + 1]) == Map(demote, keys[..i]) + [demote(keys[i])]
            && PreviousPrimary(keys[..i + 1], tenantId, endpointId, graceExpiresAt)
               == if PrimaryOf(keys[i], tenantId, endpointId) then Some(demote(keys[i]))
                  else PreviousPrimary(keys[..i], tenantId, endpointId, graceExpiresAt)
  {
    assert keys[..i + 1] == keys[..i] + [keys[i]];
    MapConcat(Demote(tenantId, endpointId, graceExpiresAt), keys[..i], [keys[i]]);
    assert keys[..i + 1][..i] == keys[..i];
  }

  function KeyIdFor(endpointId: string, keyId: Option<string>): string
  {
    if keyId.Some? then keyId.value else endpointId + ":primary"
  }

  /** The keys after configuring an endpoint: one primary is added when it has none. */
  function Ensured(keys: seq<Key>, tenantId: string, endpointId: string, id: string, createdAt: int, secret: string)
    : Result<seq<Key>, KeyError>
  {
    if exists i :: 0 <= i < |keys| && PrimaryOf(keys[i], tenantId, endpointId) then Ok(keys)
    else if HasKeyId(keys, tenantId, id) then Err(DuplicateKey(id))
    else Ok(keys + [Key(tenantId, endpointId, id, Primary, createdAt, None, secret)])
  }

  /** What a rollback is given: the rotation's endpoint, its new key and the primary it demoted. */
  datatype Rotation = Rotation(tenantId: string, endpointId: string, newKeyId: string, previousPrimary: Option<Key>)

  datatype Configured = Configured(endpoint: Endpoint, primaryKey: Key)

  datatype RotationResult = RotationResult(
    endpoint: Endpoint, newPrimary: Key, activeKeys: seq<Key>, rotation: Rotation)

  // ----- The keys a receiver accepts -----

  function Active(tenantId: string, endpointId: string, now: int): Key -> bool
  {
    (k: Key) => k.tenantId == tenantId && k.endpointId == endpointId
                && (k.role == Primary || k.expiresAt.None? || k.expiresAt.value > now)
  }

  /** `compareActiveWebhookKeys`: the primary first, then newer before older, then by id. */
  predicate Precedes(a: Key, b: Key)
  {
    if a.role != b.role then a.role == Primary
    else if a.createdAt == b.createdAt then Text.Less(a.id, b.id)
    else a.createdAt > b.createdAt
  }

  lemma PrecedesOrder()
    ensures WeakOrder(Precedes)
  {
    Text.LessOrder();
    forall a, b, c | Precedes(a, c) ensures Precedes(a, b) || Precedes(b, c) {
      assert a.id == b.id || Text.Less(a.id, b.id) || Text.Less(b.id, a.id);
    }
  }

  function ActiveKeys(keys: seq<Key>, tenantId: string, endpointId: string, now: int): seq<Key>
  {
    Sort(Precedes, Filter(Active(tenantId, endpointId, now), keys))
  }

  /** Primaries come first; keys of one role go from newer to older, and those of one time by id. */
  ghost predicate InOrderOfPrecedence(keys: seq<Key>)
  {
    forall i, j :: 0 <= i < j < |keys| ==>
      && (keys[j].role == Primary ==> keys[i].role == Primary)
      && (keys[i].role == keys[j].role ==> keys[i].createdAt >= keys[j].createdAt)
      && (keys[i].role == keys[j].role && keys[i].createdAt == keys[j].createdAt ==>
            keys[i].id == keys[j].id || Text.Less(keys[i].id, keys[j].id))
  }

  /** The active keys of an endpoint: exactly those not expired, in order of precedence. */
  lemma ActiveKeysAreExact(keys: seq<Key>, tenantId: string, endpointId: string, now: int)
    ensures var active := ActiveKeys(keys, tenantId, endpointId, now);
            && Sorted(Precedes, active)
            && InOrderOfPrecedence(active)
            && forall k :: k in active <==> k in keys && Active(tenantId, endpointId, now)(k)
  {
    var kept := Filter(Active(tenantId, endpointId, now), keys);
    PrecedesOrder();
    Text.LessOrder();
    SortSorts(Precedes, kept);
    SortMembers(Precedes, kept);
    FilterMembers(Active(tenantId, endpointId, now), keys);
    forall k ensures k in Sort(Precedes, kept) <==> k in keys && Active(tenantId, endpointId, now)(k) {
      assert k in Sort(Precedes, kept) <==> k in kept;
    }
  }

  /** The primary reported back is the endpoint's last one, as demoted; there is none when the endpoint has none. */
  lemma {:induction false} PreviousPrimaryIsLast(keys: seq<Key>, tenantId: string, endpointId: string,
                                                 graceExpiresAt: int)
    ensures var previous := PreviousPrimary(keys, tenantId, endpointId, graceExpiresAt);
            && (previous.None? <==> forall k :: k in keys && k.tenantId == tenantId && k.endpointId == endpointId ==>
                                      k.role == Secondary)
            && (previous.Some? ==>
                  exists i :: 0 <= i < |keys| && PrimaryOf(keys[i], tenantId, endpointId)
                    && previous.value == keys[i].(expiresAt := Some(graceExpiresAt), role := Secondary)
                    && forall j :: i < j < |keys| ==> !PrimaryOf(keys[j], tenantId, endpointId))
  {
    if keys != [] {
      var n := |keys| - 1;
      assert keys == keys[..n] + [keys[n]];
      PreviousPrimaryIsLast(keys[..n], tenantId, endpointId, graceExpiresAt);
      assert keys[n] in keys;
    }
  }

  /** The map at the end of a rollback: the previous primary, promoted again, in its place. */
  method Promote(keys: seq<Key>, tenantId: string, endpointId: string, previous: Key) returns (restored: seq<Key>)
    ensures restored == Map(Restore(tenantId, endpointId, previous), keys)
  {
    var restoredPrimary := previous.(expiresAt := None, role := Primary);
    restored := [];
    for i := 0 to |keys|
      invariant restored == Map(Restore(tenantId, endpointId, previous), keys[..i])
    {
      var k := keys[i];
      assert keys[..i + 1] == keys[..i] + [k];
      MapConcat(Restore(tenantId, endpointId, previous), keys[..i], [k]);
      if k.tenantId == tenantId && k.endpointId == endpointId && k.id == previous.id {
        restored := restored + [restoredPrimary];
      } else {
        restored := restored + [k];
      }
    }
    assert keys[..|keys|] == keys;
  }

  class WebhookEndpoints {
    var endpoints: map<string, Endpoint>
    var keys: seq<Key>

    constructor ()
      ensures endpoints == map[] && keys == []
    {
      endpoints, keys := map[], [];
    }

    /**
     * Stores the endpoint, which keeps the creation time it was first given, and returns it with its primary key,
     * creating one when there is none. A key id the tenant already uses changes nothing.
     */
    method EnsureConfigured(tenantId: string, endpointId: string, url: string, keyId: Option<string>,
                            inputCreatedAt: int, inputUpdatedAt: Option<int>, secret: string)
      returns (r: Result<Configured, KeyError>)
      modifies this
      ensures r.Ok? && r.value.primaryKey in old(keys) ==> keys == old(keys)
      ensures r.Ok? && r.value.primaryKey !in old(keys) ==> keys == old(keys) + [r.value.primaryKey]
      ensures r.Ok? && r.value.primaryKey !in old(keys) ==>
                var id := if keyId.Some? then keyId.value else endpointId + ":primary";
                r.value.primaryKey == Key(tenantId, endpointId, id, Primary, r.value.endpoint.createdAt, None, secret)
      ensures r.Err? ==>
                && (forall k :: k in keys && k.tenantId == tenantId && k.endpointId == endpointId ==>
                      k.role == Secondary)
                && exists k :: k in keys && k.tenantId == tenantId
                               && k.id == if keyId.Some? then keyId.value else endpointId + ":primary"
      ensures var (id, key) := (KeyIdFor(endpointId, keyId), tenantId + ":" + endpointId);
              var createdAt := if key in old(endpoints) then old(endpoints)[key].createdAt else inputCreatedAt;
              var updatedAt := if inputUpdatedAt.Some? then inputUpdatedAt.value else inputCreatedAt;
              var endpoint := Endpoint(tenantId, endpointId, url, createdAt, updatedAt);
              var ensured := Ensured(old(keys), tenantId, endpointId, id, createdAt, secret);
              && (r.Ok? <==> ensured.Ok?)
              && (r.Err? ==> r.error == ensured.error && keys == old(keys) && endpoints == old(endpoints))
              && (r.Ok? ==>
                    && keys == ensured.value && endpoints == old(endpoints)[key := endpoint]
                    && r.value.endpoint == endpoint)
      ensures r.Ok? ==> r.value.primaryKey in keys && PrimaryOf(r.value.primaryKey, tenantId, endpointId)
    {
      var endpointKey := ScopedKey(tenantId, endpointId);
      var createdAt := if endpointKey in endpoints then endpoints[endpointKey].createdAt else inputCreatedAt;
      var updatedAt := if inputUpdatedAt.Some? then inputUpdatedAt.value else inputCreatedAt;
      var endpoint := Endpoint(tenantId, endpointId, url, createdAt, updatedAt);
      var id := KeyIdFor(endpointId, keyId);
      var i := 0;
      while i < |keys| && !PrimaryOf(keys[i], tenantId, endpointId)
        invariant i <= |keys|
        invariant forall j :: 0 <= j < i ==> !PrimaryOf(keys[j], tenantId, endpointId)
      {
        i := i + 1;
      }
      if i == |keys| && HasKeyId(keys, tenantId, id) {
        return Err(DuplicateKey(id));
      }
      endpoints := endpoints[endpointKey := endpoint];
      if i < |keys| {
        return Ok(Configured(endpoint, keys[i]));
      }
      var nextPrimary := Key(tenantId, endpointId, id, Primary, createdAt, None, secret);
      keys := keys + [nextPrimary];
      r := Ok(Configured(endpoint, nextPrimary));
    }

    method RotateSigningKey(tenantId: string, endpointId: string, newKeyId: string, newSecret: string,
                            rotatedAt: int, graceExpiresAt: int)
      returns (r: Result<RotationResult, KeyError>)
      modifies this
      ensures endpoints == old(endpoints)
      ensures r.Err? ==> keys == old(keys)
      ensures ScopedKey(tenantId, endpointId) !in endpoints ==> r == Err(MissingEndpoint(endpointId))
      ensures ScopedKey(tenantId, endpointId) in endpoints ==>
                (r.Ok? <==> !HasKeyId(old(keys), tenantId, newKeyId))
      ensures r.Err? ==>
                || tenantId + ":" + endpointId !in endpoints
                || exists k :: k in keys && k.tenantId == tenantId && k.id == newKeyId
      ensures r.Ok? ==>
                && |keys| == |old(keys)| + 1
                && keys[|old(keys)|] == Key(tenantId, endpointId, newKeyId, Primary, rotatedAt, None, newSecret)
                && forall i :: 0 <= i < |old(keys)| ==>
                     var k := old(keys)[i];
                     keys[i] == if k.tenantId == tenantId && k.endpointId == endpointId && k.role == Primary
                                then k.(expiresAt := Some(graceExpiresAt), role := Secondary) else k
      ensures r.Ok? ==>
                var newPrimary := Key(tenantId, endpointId, newKeyId, Primary, rotatedAt, None, newSecret);
                && keys == Rotated(old(keys), newPrimary, graceExpiresAt)
                && r.value == RotationResult(
                     endpoints[ScopedKey(tenantId, endpointId)], newPrimary,
                     ActiveKeys(keys, tenantId, endpointId, rotatedAt),
                     Rotation(tenantId, endpointId, newKeyId,
                              PreviousPrimary(old(keys), tenantId, endpointId, graceExpiresAt)))
    {
      if ScopedKey(tenantId, endpointId) !in endpoints {
        return Err(MissingEndpoint(endpointId));
      }
      if HasKeyId(keys, tenantId, newKeyId) {
        return Err(DuplicateKey(newKeyId));
      }
      hide Rotated, ActiveKeys;
      var newPrimary := Key(tenantId, endpointId, newKeyId, Primary, rotatedAt, None, newSecret);
      var previous: Option<Key> := None;
      var demoted: seq<Key> := [];
      for i := 0 to |keys|
        invariant keys == old(keys) && endpoints == old(endpoints)
        invariant demoted == Map(Demote(tenantId, endpointId, graceExpiresAt), keys[..i])
        invariant previous == PreviousPrimary(keys[..i], tenantId, endpointId, graceExpiresAt)
      {
        OneKeyFurther(keys, i, tenantId, endpointId, graceExpiresAt);
        if PrimaryOf(keys[i], tenantId, endpointId) {
          var k := keys[i].(expiresAt := Some(graceExpiresAt), role := Secondary);
          previous := Some(k);
          demoted := demoted + [k];
        } else {
          demoted := demoted + [keys[i]];
        }
      }
      assert keys[..|keys|] == keys;
      keys := demoted + [newPrimary];
      assert keys == Rotated(old(keys), newPrimary, graceExpiresAt) by {
        RotatedText(old(keys), newPrimary, graceExpiresAt);
      }
      RotatedKeys(old(keys), newPrimary, graceExpiresAt);
      r := Ok(RotationResult(endpoints[ScopedKey(tenantId, endpointId)], newPrimary,
                             ActiveKeys(keys, tenantId, endpointId, rotatedAt),
                             Rotation(tenantId, endpointId, newKeyId, previous)));
    }

    method RollbackSigningKeyRotation(rotation: Rotation)
      modifies this
      ensures endpoints == old(endpoints)
      ensures keys == RolledBack(old(keys), rotation.tenantId, rotation.endpointId, rotation.newKeyId,
                                 rotation.previousPrimary)
    {
      var keep := NotNewPrimary(rotation.tenantId, rotation.endpointId, rotation.newKeyId);
      var removedPrimary := false;
      var withoutNewPrimary: seq<Key> := [];
      for i := 0 to |keys|
        invariant keys == old(keys) && endpoints == old(endpoints)
        invariant removedPrimary <==> exists j :: 0 <= j < i && !keep(keys[j])
        invariant withoutNewPrimary == Filter(keep, keys[..i])
      {
        assert keys[..i + 1] == keys[..i] + [keys[i]];
        FilterConcat(keep, keys[..i], [keys[i]]);
        if IsNewPrimary(keys[i], rotation.tenantId, rotation.endpointId, rotation.newKeyId) {
          removedPrimary := true;
        } else {
          withoutNewPrimary := withoutNewPrimary + [keys[i]];
        }
      }
      assert keys[..|keys|] == keys;
      if !removedPrimary || rotation.previousPrimary.None? {
        keys := withoutNewPrimary;
        return;
      }
      keys := Promote(withoutNewPrimary, rotation.tenantId, rotation.endpointId, rotation.previousPrimary.value);
    }

    method ListActiveKeys(tenantId: string, endpointId: string, now: int) returns (active: seq<Key>)
      ensures InOrderOfPrecedence(active)
      ensures forall k :: k in active <==>
                && k in keys && k.tenantId == tenantId && k.endpointId == endpointId
                && (k.role == Secondary && k.expiresAt.Some? ==> now < k.expiresAt.value)
      ensures active == ActiveKeys(keys, tenantId, endpointId, now)
    {
      ActiveKeysAreExact(keys, tenantId, endpointId, now);
      active := ActiveKeys(keys, tenantId, endpointId, now);
    }
  }

  // ----- One rotation and its rollback -----

  ghost predicate UniqueKeyIds(keys: seq<Key>)
  {
    forall i, j :: 0 <= i < j < |keys| ==> !(keys[i].tenantId == keys[j].tenantId && keys[i].id == keys[j].id)
  }

  /** The keys of one endpoint, oldest first. */
  function Stack(keys: seq<Key>, tenantId: string, endpointId: string): seq<Key>
  {
    Filter(Of(tenantId, endpointId), keys)
  }

  /** The newest key is the one primary, without an expiry; all older ones are secondary. */
  ghost predicate OnePrimaryOnTop(stack: seq<Key>)
  {
    forall i :: 0 <= i < |stack| ==>
      if i == |stack| - 1 then stack[i].role == Primary && stack[i].expiresAt == None else stack[i].role == Secondary
  }

  /** The key a rollback is to remove. */
  ghost predicate Revoked(k: Key, r: Rotation)
  {
    k.tenantId == r.tenantId && k.endpointId == r.endpointId && k.id == r.newKeyId && k.role == Primary
  }

  /** A rollback without a previous primary only removes the new key. */
  lemma RollbackWithoutPrevious(keys: seq<Key>, r: Rotation)
    requires r.previousPrimary.None?
    ensures forall k :: k in RolledBack(keys, r.tenantId, r.endpointId, r.newKeyId, None) <==>
                          k in keys && !Revoked(k, r)
  {
    FilterMembers(NotNewPrimary(r.tenantId, r.endpointId, r.newKeyId), keys);
  }

  /** A rollback that removes its key puts the previous primary, without an expiry, where a key of its id stands. */
  lemma RollbackPromotes(keys: seq<Key>, r: Rotation)
    requires r.previousPrimary.Some? && exists i :: 0 <= i < |keys| && Revoked(keys[i], r)
    ensures var without := RolledBack(keys, r.tenantId, r.endpointId, r.newKeyId, None);
            var after := RolledBack(keys, r.tenantId, r.endpointId, r.newKeyId, r.previousPrimary);
            && |after| == |without|
            && forall i :: 0 <= i < |after| ==>
                 var (k, previous) := (without[i], r.previousPrimary.value);
                 after[i] == if k.tenantId == r.tenantId && k.endpointId == r.endpointId && k.id == previous.id
                             then previous.(role := Primary, expiresAt := None) else k
  {
    var i :| 0 <= i < |keys| && Revoked(keys[i], r);
    assert IsNewPrimary(keys[i], r.tenantId, r.endpointId, r.newKeyId);
  }

  /** A rollback whose key is not the endpoint's primary, or is gone, changes nothing. */
  lemma StaleRollbackChangesNothing(keys: seq<Key>, r: Rotation)
    requires forall i :: 0 <= i < |keys| ==> !Revoked(keys[i], r)
    ensures RolledBack(keys, r.tenantId, r.endpointId, r.newKeyId, r.previousPrimary) == keys
  {
    FilterAll(NotNewPrimary(r.tenantId, r.endpointId, r.newKeyId), keys);
  }

  /** On an endpoint in order, the key a rotation demotes is the top of the endpoint's stack. */
  lemma {:induction false} PreviousIsTop(keys: seq<Key>, tenantId: string, endpointId: string, graceExpiresAt: int)
    requires Stack(keys, tenantId, endpointId) != []
    requires OnePrimaryOnTop(Stack(keys, tenantId, endpointId))
    ensures var s := Stack(keys, tenantId, endpointId);
            PreviousPrimary(keys, tenantId, endpointId, graceExpiresAt)
              == Some(s[|s| - 1].(expiresAt := Some(graceExpiresAt), role := Secondary))
  {
    var n := |keys| - 1;
    var k := keys[n];
    assert keys == keys[..n] + [k];
    FilterConcat(Of(tenantId, endpointId), keys[..n], [k]);
    FilterMembers(Of(tenantId, endpointId), keys);
    var s := Stack(keys, tenantId, endpointId);
    assert s[|s| - 1] in s;
    if Of(tenantId, endpointId)(k) {
      assert s == Stack(keys[..n], tenantId, endpointId) + [k];
    } else {
      assert s == Stack(keys[..n], tenantId, endpointId);
      PreviousIsTop(keys[..n], tenantId, endpointId, graceExpiresAt);
    }
  }

  /** A rotation puts the new key first, and keeps the old one active exactly when the grace period is not over. */
  lemma RotationServesBothKeys(keys: seq<Key>, newPrimary: Key, graceExpiresAt: int, rotatedAt: int)
    requires newPrimary.role == Primary
    requires var s := Stack(keys, newPrimary.tenantId, newPrimary.endpointId); s != [] && OnePrimaryOnTop(s)
    ensures var (t, e) := (newPrimary.tenantId, newPrimary.endpointId);
            var active := ActiveKeys(Rotated(keys, newPrimary, graceExpiresAt), t, e, rotatedAt);
            var previous := PreviousPrimary(keys, t, e, graceExpiresAt);
            && active != [] && active[0] == newPrimary
            && (forall i :: 0 < i < |active| ==> active[i].role == Secondary)
            && previous.Some? && (previous.value in active <==> graceExpiresAt > rotatedAt)
  {
    var (t, e) := (newPrimary.tenantId, newPrimary.endpointId);
    var demote := Demote(t, e, graceExpiresAt);
    var demoted := Map(demote, keys);
    var rotated := Rotated(keys, newPrimary, graceExpiresAt);
    var active := ActiveKeys(rotated, t, e, rotatedAt);
    ActiveKeysAreExact(rotated, t, e, rotatedAt);
    PreviousIsTop(keys, t, e, graceExpiresAt);
    var s := Stack(keys, t, e);
    FilterMembers(Of(t, e), keys);
    assert s[|s| - 1] in s;
    var m :| 0 <= m < |keys| && keys[m] == s[|s| - 1];
    assert rotated[m] == demote(keys[m]);
    assert rotated[|keys|] == newPrimary;
    OnePrimaryActive(keys, newPrimary, graceExpiresAt, rotatedAt);
  }

  lemma OnePrimaryActive(keys: seq<Key>, newPrimary: Key, graceExpiresAt: int, rotatedAt: int)
    requires newPrimary.role == Primary
    ensures var rotated := Rotated(keys, newPrimary, graceExpiresAt);
            var active := ActiveKeys(rotated, newPrimary.tenantId, newPrimary.endpointId, rotatedAt);
            && active != [] && active[0] == newPrimary
            && forall i :: 0 < i < |active| ==> active[i].role == Secondary
  {
    var (t, e) := (newPrimary.tenantId, newPrimary.endpointId);
    var demoted := Map(Demote(t, e, graceExpiresAt), keys);
    var kept := Filter(Active(t, e, rotatedAt), demoted);
    FilterConcat(Active(t, e, rotatedAt), demoted, [newPrimary]);
    assert Filter(Active(t, e, rotatedAt), [newPrimary]) == [newPrimary];
    FilterMembers(Active(t, e, rotatedAt), demoted);
    forall i | 0 <= i < |kept| ensures kept[i].role == Secondary {
      assert kept[i] in kept;
      var j :| 0 <= j < |demoted| && demoted[j] == kept[i];
    }
    PrimarySortsFirst(kept, newPrimary);
  }

  lemma {:induction false} PrimarySortsFirst(secondaries: seq<Key>, primary: Key)
    requires primary.role == Primary && forall i :: 0 <= i < |secondaries| ==> secondaries[i].role == Secondary
    ensures var r := Sort(Precedes, secondaries + [primary]);
            && |r| == |secondaries| + 1 && r[0] == primary
            && forall i :: 0 < i < |r| ==> r[i].role == Secondary
  {
    if secondaries == [] {
      assert secondaries + [primary] == [primary];
      assert Sort(Precedes, [primary]) == Insert(Precedes, primary, Sort(Precedes, [primary][1..]));
    } else {
      var rest := Sort(Precedes, secondaries[1..] + [primary]);
      PrimarySortsFirst(secondaries[1..], primary);
      assert (secondaries + [primary])[1..] == secondaries[1..] + [primary];
      InsertPermutes(Precedes, secondaries[0], rest[1..]);
      var r := [primary] + Insert(Precedes, secondaries[0], rest[1..]);
      assert Insert(Precedes, secondaries[0], rest) == r;
      forall i | 0 < i < |r| ensures r[i].role == Secondary {
        assert r[i] in multiset(Insert(Precedes, secondaries[0], rest[1..]));
      }
    }
  }

  /** The restored key is the original one: demotion changed the role and the expiry of the top key only. */
  lemma RestoreUndoesDemote(keys: seq<Key>, tenantId: string, endpointId: string, graceExpiresAt: int, previous: Key,
                            k: Key)
    requires UniqueKeyIds(keys) && k in keys
    requires var s := Stack(keys, tenantId, endpointId);
             && s != [] && OnePrimaryOnTop(s)
             && previous == s[|s| - 1].(expiresAt := Some(graceExpiresAt), role := Secondary)
    ensures Restore(tenantId, endpointId, previous)(Demote(tenantId, endpointId, graceExpiresAt)(k)) == k
  {
    var s := Stack(keys, tenantId, endpointId);
    var top := s[|s| - 1];
    FilterMembers(Of(tenantId, endpointId), keys);
    assert top in s;
    var m :| 0 <= m < |keys| && keys[m] == top;
    var i :| 0 <= i < |keys| && keys[i] == k;
    if Of(tenantId, endpointId)(k) {
      assert k in s;
      var j :| 0 <= j < |s| && s[j] == k;
      assert k.id == top.id ==> i == m;
    }
  }

  /** Rolling a rotation back right away restores the key list, in order and in every field. */
  lemma RollbackUndoesRotation(keys: seq<Key>, newPrimary: Key, graceExpiresAt: int)
    requires UniqueKeyIds(keys) && !HasKeyId(keys, newPrimary.tenantId, newPrimary.id)
    requires newPrimary.role == Primary
    requires var s := Stack(keys, newPrimary.tenantId, newPrimary.endpointId); s != [] && OnePrimaryOnTop(s)
    ensures var (t, e) := (newPrimary.tenantId, newPrimary.endpointId);
            RolledBack(Rotated(keys, newPrimary, graceExpiresAt), t, e, newPrimary.id,
                       PreviousPrimary(keys, t, e, graceExpiresAt)) == keys
  {
    hide Stack, OnePrimaryOnTop;
    var t, e := newPrimary.tenantId, newPrimary.endpointId;
    var demoted := Map(Demote(t, e, graceExpiresAt), keys);
    var keep := NotNewPrimary(t, e, newPrimary.id);
    PreviousIsTop(keys, t, e, graceExpiresAt);
    FilterConcat(keep, demoted, [newPrimary]);
    FilterAll(keep, demoted);
    assert Filter(keep, [newPrimary]) == [];
    assert IsNewPrimary((demoted + [newPrimary])[|demoted|], t, e, newPrimary.id);
    var previous := PreviousPrimary(keys, t, e, graceExpiresAt).value;
    var restored := Map(Restore(t, e, previous), demoted);
    forall i | 0 <= i < |keys| ensures restored[i] == keys[i] {
      RestoreUndoesDemote(keys, t, e, graceExpiresAt, previous, keys[i]);
    }
    assert restored == keys;
  }
}
